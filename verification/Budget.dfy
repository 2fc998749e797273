/** What is left of the income after expenses and goal needs, and how a shortfall is shared out. */
module Budget {
  import opened Decimals
  import opened Conversion
  import opened GoalMath
  import opened Ledger
  import opened Allocation
  import S = Sequences

  datatype GoalNeed = GoalNeed(
    goalId: int,
    name: string,
    currency: Currency,
    suggestedMonthlyAmount: Option<real>,
    deadline: Option<int>,
    deadlineStatus: DeadlineStatus)

  datatype ExcludedLine = ExcludedLine(goalId: int, name: string, reason: DeadlineStatus)

  datatype PendingGoal = PendingGoal(
    goalId: int,
    name: string,
    goalCurrency: Currency,
    need: real,
    deadline: Option<int>)

  datatype BudgetInput = BudgetInput(
    monthlyIncome: real,
    expenseRent: real,
    expenseFood: real,
    expenseOther: real,
    budgetCurrency: Currency,
    goals: seq<GoalNeed>,
    rate: Option<Rate>)
  {
    function FixedExpenses(): real {
      expenseRent + expenseFood + expenseOther
    }

    function Pool(): int {
      RoundDown(Max(0.0, monthlyIncome - FixedExpenses()))
    }
  }

  /** The nullable figures are None exactly when a needed rate is missing. */
  datatype AvailableBlock = AvailableBlock(
    budgetCurrency: Currency,
    monthlyIncome: real,
    totalFixedExpenses: real,
    totalGoalNeed: Option<int>,
    available: Option<int>,
    shortfall: Option<int>,
    counted: seq<CountedLine>,
    excluded: seq<ExcludedLine>,
    rateUsed: Option<Rate>,
    rateUnavailable: bool,
    allocation: Option<seq<AllocationLine>>)

  // ----- Classification -----

  /** Why a goal is left out of the budget; None if it is counted. */
  function Exclusion(goal: GoalNeed): Option<DeadlineStatus> {
    if goal.deadlineStatus == Completed then Some(Completed)
    else if goal.suggestedMonthlyAmount.None? then
      Some(if goal.deadlineStatus == Overdue then Overdue else NoDeadline)
    else if goal.suggestedMonthlyAmount.value == 0.0 then Some(Completed)
    else None
  }

  function PendingLine(goal: GoalNeed): seq<PendingGoal> {
    if Exclusion(goal).Some? || goal.suggestedMonthlyAmount.None? then []
    else [PendingGoal(goal.goalId, goal.name, goal.currency, goal.suggestedMonthlyAmount.value, goal.deadline)]
  }

  function ExcludedOf(goal: GoalNeed): seq<ExcludedLine> {
    if Exclusion(goal).None? then [] else [ExcludedLine(goal.goalId, goal.name, Exclusion(goal).value)]
  }

  predicate NeedsConversion(pending: seq<PendingGoal>, budgetCurrency: Currency) {
    exists i :: 0 <= i < |pending| && pending[i].goalCurrency != budgetCurrency
  }

  /** The rate only matters for a goal in the other currency. */
  function CountedFor(goal: PendingGoal, budgetCurrency: Currency, rate: Rate): CountedLine {
    var inBudget := if goal.goalCurrency == budgetCurrency then goal.need
                    else ConvertAmount(goal.need, goal.goalCurrency, rate);
    CountedLine(goal.goalId, goal.name, goal.goalCurrency, goal.need, RoundUp(inBudget), goal.deadline)
  }

  function CountedOf(pending: seq<PendingGoal>, budgetCurrency: Currency, rate: Rate): seq<CountedLine> {
    S.Map(goal => CountedFor(goal, budgetCurrency, rate), pending)
  }

  /** The block for a given pool and classified goals. */
  function BlockFor(input: BudgetInput, pool: int, pending: seq<PendingGoal>, excluded: seq<ExcludedLine>)
    : AvailableBlock
  {
    if NeedsConversion(pending, input.budgetCurrency) && input.rate.None? then
      AvailableBlock(input.budgetCurrency, input.monthlyIncome, input.FixedExpenses(),
                     None, None, None, [], excluded, None, true, None)
    else CountedBlock(input, pool, CountedOf(pending, input.budgetCurrency, input.rate.GetOr(1.0)), excluded)
  }

  /** The block once every need is in the budget's currency. */
  function CountedBlock(input: BudgetInput, pool: int, counted: seq<CountedLine>, excluded: seq<ExcludedLine>)
    : AvailableBlock
  {
    var available := pool - SumNeeds(counted);
    var shortfall := if available < 0 then -available else 0;
    AvailableBlock(input.budgetCurrency, input.monthlyIncome, input.FixedExpenses(),
                   Some(SumNeeds(counted)), Some(available), Some(shortfall), counted, excluded, input.rate, false,
                   if shortfall == 0 then None else Some(AllocationOf(pool, counted)))
  }

  function AvailableOf(input: BudgetInput): AvailableBlock {
    BlockFor(input, input.Pool(), S.FlatMap(PendingLine, input.goals), S.FlatMap(ExcludedOf, input.goals))
  }

  method Classify(goals: seq<GoalNeed>) returns (pending: seq<PendingGoal>, excluded: seq<ExcludedLine>)
    ensures pending == S.FlatMap(PendingLine, goals)
    ensures excluded == S.FlatMap(ExcludedOf, goals)
  {
    pending, excluded := [], [];
    for i := 0 to |goals|
      invariant pending == S.FlatMap(PendingLine, goals[..i])
      invariant excluded == S.FlatMap(ExcludedOf, goals[..i])
    {
      var goal := goals[i];
      assert goals[..i + 1] == goals[..i] + [goal];
      S.FlatMapOneMore(PendingLine, goals[..i], goal);
      S.FlatMapOneMore(ExcludedOf, goals[..i], goal);
      if goal.deadlineStatus == Completed {
        excluded := excluded + [ExcludedLine(goal.goalId, goal.name, Completed)];
        continue;
      }
      if goal.suggestedMonthlyAmount.None? {
        var reason := if goal.deadlineStatus == Overdue then Overdue else NoDeadline;
        excluded := excluded + [ExcludedLine(goal.goalId, goal.name, reason)];
        continue;
      }
      if goal.suggestedMonthlyAmount.value == 0.0 {
        excluded := excluded + [ExcludedLine(goal.goalId, goal.name, Completed)];
        continue;
      }
      pending := pending + [PendingGoal(goal.goalId, goal.name, goal.currency,
                                        goal.suggestedMonthlyAmount.value, goal.deadline)];
    }
    assert goals[..|goals|] == goals;
  }

  method ComputeAvailable(input: BudgetInput) returns (block: AvailableBlock)
    ensures block == AvailableOf(input)
  {
    var pool := RoundDown(Max(0.0, input.monthlyIncome - input.FixedExpenses()));
    var pending, excluded := Classify(input.goals);
    if NeedsConversion(pending, input.budgetCurrency) && input.rate.None? {
      return AvailableBlock(input.budgetCurrency, input.monthlyIncome, input.FixedExpenses(),
                            None, None, None, [], excluded, None, true, None);
    }
    block := AllocateCounted(input, pool, CountedOf(pending, input.budgetCurrency, input.rate.GetOr(1.0)), excluded);
  }

  /** The second half, with every need in the budget's currency. */
  method AllocateCounted(input: BudgetInput, pool: int, counted: seq<CountedLine>, excluded: seq<ExcludedLine>)
    returns (block: AvailableBlock)
    ensures block == CountedBlock(input, pool, counted, excluded)
  {
    var totalGoalNeed := SumNeeds(counted);
    var available := pool - totalGoalNeed;
    var shortfall := if available < 0 then -available else 0;
    var allocation: Option<seq<AllocationLine>> := None;
    if shortfall != 0 {
      var lines := Allocate(pool, counted);
      allocation := Some(lines);
    }
    block := AvailableBlock(input.budgetCurrency, input.monthlyIncome, input.FixedExpenses(),
                            Some(totalGoalNeed), Some(available), Some(shortfall), counted, excluded,
                            input.rate, false, allocation);
  }

  // ----- Goals as the budget sees them: their views, with the progress of goal math, feeding the classification -----

  function NeedOf(view: GoalView): GoalNeed {
    var suggested := view.progress.suggestedMonthlyAmount;
    GoalNeed(view.goal.id, view.goal.name, view.goal.currency,
             if suggested.Some? then Some(suggested.value as real) else None,
             view.goal.deadline, view.progress.deadlineStatus)
  }

  function NeedsOf(views: seq<GoalView>): seq<GoalNeed> {
    S.Map(NeedOf, views)
  }

  /** A goal with a positive target, and its progress as goal math computes it on a day. */
  ghost predicate IsPlanned(view: GoalView, today: int) {
    && view.goal.targetAmount > 0.0
    && view.progress == ComputeProgress(view.goal.targetAmount, view.progress.savedAmount, view.goal.currency,
                                        view.goal.deadline, today, view.progress.rateUsed)
  }

  ghost predicate ArePlanned(views: seq<GoalView>, today: int) {
    forall v :: v in views ==> IsPlanned(v, today)
  }

  /** For a positive target: counted exactly when on track, otherwise excluded for exactly its status.
      A counted goal has a deadline and a whole need of at least 1, so the zero-amount branch never runs. */
  lemma ClassificationIsStatus(view: GoalView, today: int)
    requires IsPlanned(view, today)
    ensures var need, status := NeedOf(view), view.progress.deadlineStatus;
            && Exclusion(need) == (if status == OnTrack then None else Some(status))
            && (status == OnTrack ==> need.deadline.Some? && need.suggestedMonthlyAmount.Some?
                                      && need.suggestedMonthlyAmount.value >= 1.0
                                      && IsWhole(need.suggestedMonthlyAmount.value))
            && (need.suggestedMonthlyAmount == Some(0.0) ==> status == Completed)
  {
    var p := view.progress;
    if p.remainingAmount > 0.0 && p.monthsRemaining.Some? {
      SuggestionIsTight(p.remainingAmount, p.monthsRemaining.value);
    }
  }

  function OnTrackLine(view: GoalView): seq<int> {
    if view.progress.deadlineStatus == OnTrack then [view.goal.id] else []
  }

  function OffTrackLine(view: GoalView): seq<ExcludedLine> {
    var status := view.progress.deadlineStatus;
    if status == OnTrack then [] else [ExcludedLine(view.goal.id, view.goal.name, status)]
  }

  /** A whole, at least 1, with a deadline: what every counted need looks like. */
  ghost predicate WellPlanned(goal: PendingGoal) {
    goal.need >= 1.0 && IsWhole(goal.need) && goal.deadline.Some?
  }

  function PendingOf(views: seq<GoalView>): seq<PendingGoal> {
    S.FlatMap(PendingLine, NeedsOf(views))
  }

  /** Over a whole goal list: the counted goals are the on-track ones, the excluded ones carry
      their status as the reason, both in list order. */
  lemma {:induction false} BudgetPartitionsGoals(views: seq<GoalView>, today: int)
    requires ArePlanned(views, today)
    ensures S.Map((p: PendingGoal) => p.goalId, PendingOf(views)) == S.FlatMap(OnTrackLine, views)
    ensures forall i :: 0 <= i < |PendingOf(views)| ==> WellPlanned(PendingOf(views)[i])
    ensures S.FlatMap(ExcludedOf, NeedsOf(views)) == S.FlatMap(OffTrackLine, views)
  {
    if views == [] {
    } else {
      assert views[0] in views;
      OneGoalIsClassified(views[0], today);
      BudgetPartitionsGoals(views[1..], today);
      var needs := NeedsOf(views);
      assert needs[1..] == NeedsOf(views[1..]);
      IdsAppend(PendingLine(needs[0]), S.FlatMap(PendingLine, needs[1..]));
    }
  }

  lemma IdsAppend(a: seq<PendingGoal>, b: seq<PendingGoal>)
    ensures S.Map((p: PendingGoal) => p.goalId, a + b)
            == S.Map((p: PendingGoal) => p.goalId, a) + S.Map((p: PendingGoal) => p.goalId, b)
  {
  }

  lemma OneGoalIsClassified(view: GoalView, today: int)
    requires IsPlanned(view, today)
    ensures var pending := PendingLine(NeedOf(view));
            && S.Map((p: PendingGoal) => p.goalId, pending) == OnTrackLine(view)
            && (forall i :: 0 <= i < |pending| ==> WellPlanned(pending[i]))
    ensures ExcludedOf(NeedOf(view)) == OffTrackLine(view)
  {
    ClassificationIsStatus(view, today);
  }

  // ----- Whole units and rounding bounds -----

  function ExactNeed(goal: PendingGoal, budgetCurrency: Currency, rate: Rate): real {
    if goal.goalCurrency == budgetCurrency then goal.need else Exchange(goal.need, goal.goalCurrency, rate)
  }

  function CrossCurrencyCount(pending: seq<PendingGoal>, budgetCurrency: Currency): nat {
    if pending == [] then 0
    else (if pending[0].goalCurrency != budgetCurrency then 1 else 0) + CrossCurrencyCount(pending[1..], budgetCurrency)
  }

  lemma RoundedUpCents(x: real)
    requires x >= 0.0
    ensures -0.005 <= RoundUp(ToCents(x)) as real - x <= 0.995
    ensures RoundUp(ToCents(x)) >= 0
  {
    var c := ToCents(x);
    assert c >= 0.0;
    var m, n := (c * 100.0).Floor, RoundUp(c);
    assert (n - 1) * 100 < m;
  }

  lemma ExchangeNonNegative(amount: real, from: Currency, rate: Rate)
    requires amount >= 0.0
    ensures Exchange(amount, from, rate) >= 0.0
  {
    ExchangeMonotone(0.0, amount, from, rate);
  }

  /** With k goals in the other currency, the rounded total is between 0.005k below and 0.995k above the exact one. */
  lemma {:induction false} TotalNeedBound(pending: seq<PendingGoal>, budgetCurrency: Currency, rate: Rate)
    requires forall i :: 0 <= i < |pending| ==> WellPlanned(pending[i])
    ensures var k := CrossCurrencyCount(pending, budgetCurrency) as real;
            var exact := S.Sum((p: PendingGoal) => ExactNeed(p, budgetCurrency, rate), pending);
            -0.005 * k <= SumNeeds(CountedOf(pending, budgetCurrency, rate)) as real - exact <= 0.995 * k
    ensures NeedsNonNegative(CountedOf(pending, budgetCurrency, rate))
    ensures Undated(CountedOf(pending, budgetCurrency, rate)) == []
  {
    var counted := CountedOf(pending, budgetCurrency, rate);
    if pending == [] {
    } else {
      var p := pending[0];
      TotalNeedBound(pending[1..], budgetCurrency, rate);
      var rest := CountedOf(pending[1..], budgetCurrency, rate);
      assert counted == [CountedFor(p, budgetCurrency, rate)] + rest;
      SumNeedsSplit([CountedFor(p, budgetCurrency, rate)], rest);
      SumNeedsSingle(CountedFor(p, budgetCurrency, rate));
      if p.goalCurrency != budgetCurrency {
        ExchangeNonNegative(p.need, p.goalCurrency, rate);
        RoundedUpCents(Exchange(p.need, p.goalCurrency, rate));
      } else {
        RoundUpFixesWhole(p.need);
      }
      assert counted[1..] == rest;
    }
  }

  lemma PoolIsWholeDisposable(input: BudgetInput)
    ensures var expenses := input.expenseRent + input.expenseFood + input.expenseOther;
            var disposable := Max(0.0, input.monthlyIncome - expenses);
            0 <= input.Pool() && input.Pool() as real <= disposable < input.Pool() as real + 1.0
  {
  }

  /** The block over the views of a user's goals, as the budget endpoint computes it. */
  function BudgetOfGoals(input: BudgetInput, views: seq<GoalView>): AvailableBlock {
    AvailableOf(input.(goals := NeedsOf(views)))
  }

  /** There is an allocation exactly when the needs exceed the pool, and it hands out the whole pool. */
  ghost predicate SharesThePool(block: AvailableBlock, pool: int) {
    && block.totalGoalNeed.Some? && block.available == Some(pool - block.totalGoalNeed.value)
    && (block.allocation.Some? <==> block.totalGoalNeed.value > pool)
    && (block.allocation.Some? ==>
          && SumAmounts(block.allocation.value) == pool
          && block.shortfall == Some(block.totalGoalNeed.value - pool))
    && (block.allocation.None? ==> block.shortfall == Some(0))
  }

  lemma BlockSharesThePool(input: BudgetInput, pool: int, pending: seq<PendingGoal>, excluded: seq<ExcludedLine>)
    requires pool >= 0 && !BlockFor(input, pool, pending, excluded).rateUnavailable
    requires NeedsNonNegative(CountedOf(pending, input.budgetCurrency, input.rate.GetOr(1.0)))
    ensures SharesThePool(BlockFor(input, pool, pending, excluded), pool)
  {
    AllocationTotal(pool, CountedOf(pending, input.budgetCurrency, input.rate.GetOr(1.0)));
  }

  /** For any user's goals: with k counted goals in the other currency, the total need shown differs from the exact
      rational one by at least -0.005k and at most 0.995k. */
  lemma BudgetTotalBound(input: BudgetInput, views: seq<GoalView>, today: int)
    requires ArePlanned(views, today) && !BudgetOfGoals(input, views).rateUnavailable
    ensures var pending, rate := PendingOf(views), input.rate.GetOr(1.0);
            var k := CrossCurrencyCount(pending, input.budgetCurrency) as real;
            var exact := S.Sum((p: PendingGoal) => ExactNeed(p, input.budgetCurrency, rate), pending);
            var total := BudgetOfGoals(input, views).totalGoalNeed;
            total.Some? && -0.005 * k <= total.value as real - exact <= 0.995 * k
  {
    BudgetPartitionsGoals(views, today);
    TotalNeedBound(PendingOf(views), input.budgetCurrency, input.rate.GetOr(1.0));
  }

  /** For any user's goals: an allocation never sums above real disposable income, is zero when that is
      negative, and otherwise spends exactly the whole-unit pool. */
  lemma AllocationSpendsExactlyThePool(input: BudgetInput, views: seq<GoalView>, today: int)
    requires ArePlanned(views, today) && !BudgetOfGoals(input, views).rateUnavailable
    ensures SharesThePool(BudgetOfGoals(input, views), input.Pool())
    ensures var expenses := input.expenseRent + input.expenseFood + input.expenseOther;
            0 <= input.Pool() && input.Pool() as real <= Max(0.0, input.monthlyIncome - expenses)
  {
    var full := input.(goals := NeedsOf(views));
    PoolIsWholeDisposable(input);
    BudgetPartitionsGoals(views, today);
    TotalNeedBound(PendingOf(views), input.budgetCurrency, input.rate.GetOr(1.0));
    BlockSharesThePool(full, full.Pool(), PendingOf(views), S.FlatMap(ExcludedOf, full.goals));
  }

  // ----- What each line carries, and the order the pool is handed out in -----

  function IsOnTrack(): GoalView -> bool { (v: GoalView) => v.progress.deadlineStatus == OnTrack }

  /** The pending goal is the view's, with the view's own suggestion and deadline. */
  ghost predicate IsPendingOf(p: PendingGoal, v: GoalView) {
    && v.progress.suggestedMonthlyAmount.Some? && p.need == v.progress.suggestedMonthlyAmount.value as real
    && p.goalId == v.goal.id && p.name == v.goal.name && p.goalCurrency == v.goal.currency
    && p.deadline == v.goal.deadline && p.deadline.Some?
  }

  /** The counted line is the view's: its goal, deadline and suggestion, and as need the suggestion itself, or in the
      other currency the least whole amount not below its conversion. */
  ghost predicate IsLineOf(line: CountedLine, v: GoalView, budgetCurrency: Currency, rate: Option<Rate>) {
    && line.goalId == v.goal.id && line.name == v.goal.name && line.goalCurrency == v.goal.currency
    && line.deadline == v.goal.deadline && line.deadline.Some?
    && v.progress.suggestedMonthlyAmount.Some?
    && var suggested := v.progress.suggestedMonthlyAmount.value;
       && line.needInGoalCurrency == suggested as real
       && if v.goal.currency == budgetCurrency then line.need == suggested
          else rate.Some? && var converted := ConvertAmount(suggested as real, v.goal.currency, rate.value);
               line.need as real - 1.0 < converted <= line.need as real
  }

  lemma {:induction false} PendingAreTheGoals(views: seq<GoalView>, today: int)
    requires ArePlanned(views, today)
    ensures var onTrack := S.Filter(IsOnTrack(), views);
            |PendingOf(views)| == |onTrack|
            && forall i :: 0 <= i < |onTrack| ==> IsPendingOf(PendingOf(views)[i], onTrack[i])
  {
    if views != [] {
      assert views[0] in views;
      ClassificationIsStatus(views[0], today);
      PendingAreTheGoals(views[1..], today);
      var needs := NeedsOf(views);
      assert needs[1..] == NeedsOf(views[1..]);
      assert PendingOf(views) == PendingLine(needs[0]) + PendingOf(views[1..]);
    }
  }

  lemma CountedForIsLineOf(p: PendingGoal, v: GoalView, budgetCurrency: Currency, rate: Option<Rate>)
    requires IsPendingOf(p, v) && WellPlanned(p) && (v.goal.currency != budgetCurrency ==> rate.Some?)
    ensures IsLineOf(CountedFor(p, budgetCurrency, rate.GetOr(1.0)), v, budgetCurrency, rate)
  {
    if v.goal.currency == budgetCurrency {
      RoundUpOfInteger(v.progress.suggestedMonthlyAmount.value);
    } else {
      ExchangeNonNegative(p.need, p.goalCurrency, rate.value);
      assert ConvertAmount(p.need, p.goalCurrency, rate.value) >= 0.0;
    }
  }

  /** A needed rate is missing exactly when there is none and some on-track goal is in the other currency; then no
      figure is given. The income, the sum of the three expenses and the currency are shown in any case. */
  lemma RateUnavailableIff(input: BudgetInput, views: seq<GoalView>, today: int)
    requires ArePlanned(views, today)
    ensures var block := BudgetOfGoals(input, views);
            && (block.rateUnavailable <==>
                  input.rate.None?
                  && exists v :: v in views && IsOnTrack()(v) && v.goal.currency != input.budgetCurrency)
            && (block.rateUnavailable ==>
                  block.totalGoalNeed.None? && block.available.None? && block.shortfall.None? && block.counted == []
                  && block.allocation.None? && block.rateUsed.None?)
            && (!block.rateUnavailable ==> block.rateUsed == input.rate)
            && block.monthlyIncome == input.monthlyIncome && block.budgetCurrency == input.budgetCurrency
            && block.totalFixedExpenses == input.expenseRent + input.expenseFood + input.expenseOther
  {
    PendingAreTheGoals(views, today);
    var pending, onTrack := PendingOf(views), S.Filter(IsOnTrack(), views);
    if NeedsConversion(pending, input.budgetCurrency) {
      var i :| 0 <= i < |pending| && pending[i].goalCurrency != input.budgetCurrency;
      assert IsPendingOf(pending[i], onTrack[i]) && onTrack[i] in onTrack;
    }
    if v :| v in views && IsOnTrack()(v) && v.goal.currency != input.budgetCurrency {
      assert v in onTrack;
      var i :| 0 <= i < |onTrack| && onTrack[i] == v;
      assert IsPendingOf(pending[i], onTrack[i]);
    }
  }

  /** The counted lines are the on-track goals', one each and in list order. */
  lemma CountedLinesAreTheGoals(input: BudgetInput, views: seq<GoalView>, today: int)
    requires ArePlanned(views, today) && !BudgetOfGoals(input, views).rateUnavailable
    ensures var counted, onTrack := BudgetOfGoals(input, views).counted, S.Filter(IsOnTrack(), views);
            |counted| == |onTrack|
            && forall i :: 0 <= i < |onTrack| ==> IsLineOf(counted[i], onTrack[i], input.budgetCurrency, input.rate)
  {
    PendingAreTheGoals(views, today);
    BudgetPartitionsGoals(views, today);
    RateUnavailableIff(input, views, today);
    var pending, onTrack := PendingOf(views), S.Filter(IsOnTrack(), views);
    forall i | 0 <= i < |onTrack|
      ensures IsLineOf(BudgetOfGoals(input, views).counted[i], onTrack[i], input.budgetCurrency, input.rate)
    {
      assert onTrack[i] in onTrack && IsPendingOf(pending[i], onTrack[i]);
      CountedForIsLineOf(pending[i], onTrack[i], input.budgetCurrency, input.rate);
    }
  }

  /** The allocation line answers the view's goal. */
  ghost predicate Answers(r: AllocationLine, line: CountedLine, v: GoalView) {
    && r.goalId == v.goal.id && r.name == v.goal.name && r.need == line.need && 0 <= r.amount <= r.need
    && (r.coveredFully <==> r.amount == r.need)
  }

  lemma CountedNeedsAreNonNegative(input: BudgetInput, views: seq<GoalView>, today: int)
    requires ArePlanned(views, today) && !BudgetOfGoals(input, views).rateUnavailable
    ensures NeedsNonNegative(BudgetOfGoals(input, views).counted)
  {
    BudgetPartitionsGoals(views, today);
    TotalNeedBound(PendingOf(views), input.budgetCurrency, input.rate.GetOr(1.0));
  }

  lemma AllocationIsOfCounted(input: BudgetInput, views: seq<GoalView>)
    requires BudgetOfGoals(input, views).allocation.Some?
    ensures var block := BudgetOfGoals(input, views);
            !block.rateUnavailable && block.allocation.value == AllocationOf(input.Pool(), block.counted)
  {
  }

  /** The goal behind an allocation line. */
  lemma GoalOfLine(input: BudgetInput, views: seq<GoalView>, today: int, i: nat, counted: seq<CountedLine>)
    returns (v: GoalView)
    requires ArePlanned(views, today) && BudgetOfGoals(input, views).allocation.Some?
    requires counted == BudgetOfGoals(input, views).counted
    requires i < |BudgetOfGoals(input, views).allocation.value|
    ensures v in views && IsOnTrack()(v) && i < |SortLines(counted)|
    ensures IsLineOf(SortLines(counted)[i], v, input.budgetCurrency, input.rate)
    ensures Answers(BudgetOfGoals(input, views).allocation.value[i], SortLines(counted)[i], v)
  {
    AllocationIsOfCounted(input, views);
    CountedNeedsAreNonNegative(input, views, today);
    PoolIsWholeDisposable(input);
    var k := AnswerHasALine(input.Pool(), counted, i);
    CountedLinesAreTheGoals(input, views, today);
    v := S.Filter(IsOnTrack(), views)[k];
    assert v in S.Filter(IsOnTrack(), views);
  }

  /** Every on-track goal has its line in an allocation. */
  lemma GoalHasALine(input: BudgetInput, views: seq<GoalView>, today: int, v: GoalView) returns (i: nat)
    requires ArePlanned(views, today) && BudgetOfGoals(input, views).allocation.Some?
    requires v in views && IsOnTrack()(v)
    ensures i < |BudgetOfGoals(input, views).allocation.value|
    ensures BudgetOfGoals(input, views).allocation.value[i].goalId == v.goal.id
  {
    var counted, onTrack := BudgetOfGoals(input, views).counted, S.Filter(IsOnTrack(), views);
    AllocationIsOfCounted(input, views);
    CountedNeedsAreNonNegative(input, views, today);
    PoolIsWholeDisposable(input);
    CountedLinesAreTheGoals(input, views, today);
    assert v in onTrack;
    var k :| 0 <= k < |onTrack| && onTrack[k] == v;
    assert IsLineOf(counted[k], v, input.budgetCurrency, input.rate);
    i := LineHasAnAnswer(input.Pool(), counted, k);
  }

  /** The order of two goals in an allocation: earlier deadline, then smaller need, then smaller id; and nothing goes to
      the later one unless the earlier one is covered in full. */
  ghost predicate ServedBefore(r: AllocationLine, a: GoalView, t: AllocationLine, b: GoalView) {
    && a.goal.deadline.Some? && b.goal.deadline.Some?
    && (|| a.goal.deadline.value < b.goal.deadline.value
        || (a.goal.deadline == b.goal.deadline
            && (r.need < t.need || (r.need == t.need && a.goal.id <= b.goal.id))))
    && (t.amount > 0 ==> r.coveredFully)
  }

  lemma AllocationServesInOrder(input: BudgetInput, views: seq<GoalView>, today: int, i: nat, j: nat)
    returns (a: GoalView, b: GoalView)
    requires ArePlanned(views, today) && BudgetOfGoals(input, views).allocation.Some?
    requires i < j < |BudgetOfGoals(input, views).allocation.value|
    ensures var lines := BudgetOfGoals(input, views).allocation.value;
            && a in views && b in views && a.goal.id == lines[i].goalId && b.goal.id == lines[j].goalId
            && ServedBefore(lines[i], a, lines[j], b)
  {
    var counted := BudgetOfGoals(input, views).counted;
    a := GoalOfLine(input, views, today, i, counted);
    b := GoalOfLine(input, views, today, j, counted);
    NearestDeadlineFirst(counted, i, j);
    AllocationIsOfCounted(input, views);
    CountedNeedsAreNonNegative(input, views, today);
    PoolIsWholeDisposable(input);
    EarlierIsCoveredFirst(input.Pool(), counted, i, j);
  }

  /** In the allocation over any user's goals: of two goals, the one due earlier comes first, and the other gets nothing
      unless the earlier one is covered in full. */
  lemma EarlierDeadlineIsServedFirst(input: BudgetInput, views: seq<GoalView>, today: int, a: GoalView, b: GoalView,
                                     i: nat, j: nat)
    requires ArePlanned(views, today) && DistinctGoals(views) && BudgetOfGoals(input, views).allocation.Some?
    requires i < |BudgetOfGoals(input, views).allocation.value| && j < |BudgetOfGoals(input, views).allocation.value|
    requires var lines := BudgetOfGoals(input, views).allocation.value;
             a in views && b in views && lines[i].goalId == a.goal.id && lines[j].goalId == b.goal.id
    requires a.goal.deadline.Some? && b.goal.deadline.Some? && a.goal.deadline.value < b.goal.deadline.value
    ensures i < j
    ensures var lines := BudgetOfGoals(input, views).allocation.value; lines[j].amount > 0 ==> lines[i].coveredFully
  {
    if i < j {
      var c, d := AllocationServesInOrder(input, views, today, i, j);
      SameGoal(views, a, c);
      SameGoal(views, b, d);
    } else if j < i {
      var d, c := AllocationServesInOrder(input, views, today, j, i);
      SameGoal(views, a, c);
      SameGoal(views, b, d);
    } else {
      SameGoal(views, a, b);
    }
  }

  lemma SameGoal(views: seq<GoalView>, a: GoalView, b: GoalView)
    requires DistinctGoals(views) && a in views && b in views && a.goal.id == b.goal.id
    ensures a == b
  {
    var i :| 0 <= i < |views| && views[i] == a;
    var j :| 0 <= j < |views| && views[j] == b;
  }

  // ----- The order of the goal list does not matter -----

  lemma NeedsConversionReordered(p: seq<PendingGoal>, q: seq<PendingGoal>, budgetCurrency: Currency)
    requires multiset(p) == multiset(q)
    ensures NeedsConversion(p, budgetCurrency) <==> NeedsConversion(q, budgetCurrency)
  {
    if NeedsConversion(p, budgetCurrency) {
      var i :| 0 <= i < |p| && p[i].goalCurrency != budgetCurrency;
      assert p[i] in multiset(q);
    }
    if NeedsConversion(q, budgetCurrency) {
      var i :| 0 <= i < |q| && q[i].goalCurrency != budgetCurrency;
      assert q[i] in multiset(p);
    }
  }

  ghost predicate DistinctGoals(views: seq<GoalView>) {
    forall i, j :: 0 <= i < j < |views| ==> views[i].goal.id != views[j].goal.id
  }

  function GoalIds(views: seq<GoalView>): set<int> {
    set v | v in views :: v.goal.id as int
  }

  ghost predicate DistinctPending(pending: seq<PendingGoal>) {
    forall i, j :: 0 <= i < j < |pending| ==> pending[i].goalId != pending[j].goalId
  }

  lemma {:induction false} PendingIdsAreDistinct(views: seq<GoalView>)
    requires DistinctGoals(views)
    ensures DistinctPending(PendingOf(views)) && forall p :: p in PendingOf(views) ==> p.goalId in GoalIds(views)
  {
    if views == [] {
    } else {
      PendingIdsAreDistinct(views[1..]);
      var needs := NeedsOf(views);
      assert needs[1..] == NeedsOf(views[1..]);
      FirstIdIsNew(views);
      AddDistinct(PendingLine(needs[0]), PendingOf(views[1..]), GoalIds(views[1..]), views[0].goal.id);
    }
  }

  lemma FirstIdIsNew(views: seq<GoalView>)
    requires DistinctGoals(views) && views != []
    ensures views[0].goal.id !in GoalIds(views[1..])
    ensures GoalIds(views) == {views[0].goal.id} + GoalIds(views[1..])
  {
    assert forall k :: 0 <= k < |views[1..]| ==> views[1..][k] == views[k + 1];
    assert forall v :: v in views <==> v == views[0] || v in views[1..];
  }

  lemma AddDistinct(head: seq<PendingGoal>, rest: seq<PendingGoal>, ids: set<int>, id: int)
    requires |head| <= 1 && (forall p :: p in head ==> p.goalId == id) && id !in ids
    requires DistinctPending(rest) && forall p :: p in rest ==> p.goalId in ids
    ensures DistinctPending(head + rest) && forall p :: p in head + rest ==> p.goalId in {id} + ids
  {
  }

  lemma PendingReordered(views: seq<GoalView>, other: seq<GoalView>)
    requires multiset(views) == multiset(other)
    ensures multiset(PendingOf(views)) == multiset(PendingOf(other))
    ensures multiset(S.FlatMap(ExcludedOf, NeedsOf(views))) == multiset(S.FlatMap(ExcludedOf, NeedsOf(other)))
  {
    S.MapReordered(NeedOf, views, other);
    S.FlatMapReordered(PendingLine, NeedsOf(views), NeedsOf(other));
    S.FlatMapReordered(ExcludedOf, NeedsOf(views), NeedsOf(other));
  }

  lemma CountedReordered(pool: int, p: seq<PendingGoal>, q: seq<PendingGoal>, budgetCurrency: Currency, rate: Rate)
    requires multiset(p) == multiset(q) && DistinctPending(p)
    requires forall i :: 0 <= i < |p| ==> WellPlanned(p[i])
    ensures var a, b := CountedOf(p, budgetCurrency, rate), CountedOf(q, budgetCurrency, rate);
            multiset(a) == multiset(b) && SumNeeds(a) == SumNeeds(b) && AllocationOf(pool, a) == AllocationOf(pool, b)
  {
    var a, b := CountedOf(p, budgetCurrency, rate), CountedOf(q, budgetCurrency, rate);
    S.MapReordered((goal: PendingGoal) => CountedFor(goal, budgetCurrency, rate), p, q);
    TotalNeedBound(p, budgetCurrency, rate);
    FewUndatedIsOrderIndependent(pool, a, b);
    SumNeedsSorted(a);
    SumNeedsSorted(b);
  }

  ghost predicate SameFigures(a: AvailableBlock, b: AvailableBlock) {
    && a.rateUnavailable == b.rateUnavailable && a.totalGoalNeed == b.totalGoalNeed
    && a.available == b.available && a.shortfall == b.shortfall && a.allocation == b.allocation
    && multiset(a.counted) == multiset(b.counted) && multiset(a.excluded) == multiset(b.excluded)
  }

  lemma ReorderedNeedsSameFigures(input: BudgetInput, other: BudgetInput, pool: int, p: seq<PendingGoal>,
                                  q: seq<PendingGoal>, e: seq<ExcludedLine>, f: seq<ExcludedLine>)
    requires other == input.(goals := other.goals)
    requires multiset(p) == multiset(q) && multiset(e) == multiset(f)
    requires DistinctPending(p) && forall i :: 0 <= i < |p| ==> WellPlanned(p[i])
    ensures SameFigures(BlockFor(input, pool, p, e), BlockFor(other, pool, q, f))
  {
    NeedsConversionReordered(p, q, input.budgetCurrency);
    CountedReordered(pool, p, q, input.budgetCurrency, input.rate.GetOr(1.0));
  }

  /** Listing the same goals in another order changes no total and not a single allocation line. */
  lemma GoalOrderDoesNotMatter(input: BudgetInput, views: seq<GoalView>, other: seq<GoalView>, today: int)
    requires multiset(views) == multiset(other) && DistinctGoals(views) && ArePlanned(views, today)
    ensures SameFigures(BudgetOfGoals(input, views), BudgetOfGoals(input, other))
  {
    PendingReordered(views, other);
    BudgetPartitionsGoals(views, today);
    PendingIdsAreDistinct(views);
    var a, b := input.(goals := NeedsOf(views)), input.(goals := NeedsOf(other));
    assert a.Pool() == b.Pool();
    ReorderedNeedsSameFigures(a, b, a.Pool(), PendingOf(views), PendingOf(other),
                              S.FlatMap(ExcludedOf, a.goals), S.FlatMap(ExcludedOf, b.goals));
  }
}
