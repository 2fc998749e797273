/** The budget endpoint over a user's goals in any ledger that calls can reach. */
module BudgetLedger {
  import opened Decimals
  import opened Conversion
  import opened GoalMath
  import opened Ledger
  import opened LedgerInvariant
  import opened Allocation
  import opened Budget
  import Totals
  import S = Sequences

  // ----- Targets stay positive -----

  ghost predicate TargetsPositive(s: Store) {
    forall g :: g in s.goals ==> g.targetAmount > 0.0
  }

  /** Targets with at most two decimals, as the goal endpoints check. */
  ghost predicate TwoDecimalTargets(r: Request) {
    match r
    case CreateGoal(_, target, _, _) => IsCents(target)
    case UpdateGoal(_, _, newTarget, _) => newTarget.Some? ==> IsCents(newTarget.value)
    case _ => true
  }

  /** A positive target can only lose its sign to the column if it has more than two decimals. */
  lemma StepKeepsTargets(s: Store, user: nat, r: Request, env: Env)
    requires TargetsPositive(s) && TwoDecimalTargets(r)
    ensures TargetsPositive(Step(s, user, r, env).store)
  {
    match r
    case CreateGoal(_, target, _, _) => ToCentsFixesCents(target);
    case UpdateGoal(_, _, _, _) => EditKeepsTargets(s, user, r, env);
    case _ =>
  }

  lemma EditKeepsTargets(s: Store, user: nat, r: Request, env: Env)
    requires r.UpdateGoal? && TargetsPositive(s) && TwoDecimalTargets(r)
    ensures TargetsPositive(UpdateGoalStep(s, user, r, env).store)
  {
    if r.newTarget.Some? {
      ToCentsFixesCents(r.newTarget.value);
    }
    var t := UpdateGoalStep(s, user, r, env).store;
    forall g | g in t.goals ensures g.targetAmount > 0.0 {
      var i :| 0 <= i < |t.goals| && t.goals[i] == g;
      assert s.goals[i] in s.goals;
    }
  }

  lemma {:induction false} EveryRunKeepsTargets(s: Store, calls: seq<Call>)
    requires TargetsPositive(s) && forall c :: c in calls ==> TwoDecimalTargets(c.request)
    ensures TargetsPositive(RunCalls(s, calls))
    decreases |calls|
  {
    if calls != [] {
      var c := calls[0];
      assert c in calls;
      StepKeepsTargets(s, c.user, c.request, c.env);
      EveryRunKeepsTargets(Step(s, c.user, c.request, c.env).store, calls[1..]);
    }
  }

  // ----- The views of a user's goals -----

  lemma ViewsArePlanned(s: Store, user: nat, env: Env)
    requires TargetsPositive(s)
    ensures ArePlanned(FindAllViews(s, user, env), env.now)
  {
    var own := S.Filter(GoalsOf(user), s.goals);
    var listed := GoalsNewestFirst(own);
    Totals.GoalsNewestFirstReorders(own);
    var views := FindAllViews(s, user, env);
    forall v | v in views ensures IsPlanned(v, env.now) {
      var i :| 0 <= i < |views| && views[i] == v;
      assert listed[i] in multiset(own);
    }
  }

  lemma ViewsAreDistinct(s: Store, user: nat, env: Env)
    requires S.UniqueBy(GoalKey(), s.goals)
    ensures DistinctGoals(FindAllViews(s, user, env))
  {
    var own := S.Filter(GoalsOf(user), s.goals);
    S.FilterKeepsUnique(GoalKey(), GoalsOf(user), s.goals);
    Totals.GoalsNewestFirstReorders(own);
    ReorderedIsUnique(own, GoalsNewestFirst(own));
  }

  lemma {:induction false} ReorderedIsUnique(s: seq<Goal>, t: seq<Goal>)
    requires multiset(s) == multiset(t) && S.UniqueBy(GoalKey(), s)
    ensures forall i, j :: 0 <= i < j < |t| ==> t[i].id != t[j].id
    decreases |s|
  {
    S.EmptyReordering(s, t);
    if t != [] {
      var before, after := S.FindFirstRow(t, s);
      var rest := before + after;
      ShorterIsUnique(s, before, t[0], after);
      ReorderedIsUnique(rest, t[1..]);
      forall j | 0 < j < |t| ensures t[0].id != t[j].id {
        assert t[1..][j - 1] in multiset(rest);
      }
    }
  }

  lemma ShorterIsUnique(s: seq<Goal>, before: seq<Goal>, g: Goal, after: seq<Goal>)
    requires s == before + ([g] + after) && S.UniqueBy(GoalKey(), s)
    ensures S.UniqueBy(GoalKey(), before + after)
    ensures forall x :: x in before + after ==> x.id != g.id
  {
    var rest, n := before + after, |before|;
    forall i, j | 0 <= i < j < |rest| ensures GoalKey()(rest[i]) != GoalKey()(rest[j]) {
      assert rest[i] == s[if i < n then i else i + 1] && rest[j] == s[if j < n then j else j + 1];
    }
    forall x | x in rest ensures x.id != g.id {
      var i :| 0 <= i < |rest| && rest[i] == x;
      assert s[n] == g && s[if i < n then i else i + 1] == x;
      assert GoalKey()(s[if i < n then i else n]) != GoalKey()(s[if i < n then n else i + 1]);
    }
  }

  // ----- The endpoint -----

  /** The budget block for a user's goals as they stand. */
  function AvailableFor(s: Store, user: nat, input: BudgetInput, env: Env): AvailableBlock {
    BudgetOfGoals(input, FindAllViews(s, user, env))
  }

  /** Every ledger that calls can reach, with targets of at most two decimals. */
  ghost predicate Reachable(s: Store) {
    exists calls: seq<Call> :: FreshRun(0, calls) && (forall c :: c in calls ==> TwoDecimalTargets(c.request))
                    && s == RunCalls(Store([], []), calls)
  }

  lemma ReachableIsSound(s: Store)
    requires Reachable(s)
    ensures TargetsPositive(s) && S.UniqueBy(GoalKey(), s.goals)
  {
    var calls: seq<Call> :| FreshRun(0, calls) && (forall c :: c in calls ==> TwoDecimalTargets(c.request))
                 && s == RunCalls(Store([], []), calls);
    EmptyStoreIsConsistent();
    EveryRunKeepsLedger(Store([], []), 0, {}, calls);
    EveryRunKeepsTargets(Store([], []), calls);
  }

  /** In every reachable ledger a user's on-track goals are counted and the others carry their status, in list order. */
  lemma UsersGoalsArePartitioned(s: Store, user: nat, input: BudgetInput, env: Env)
    requires Reachable(s)
    ensures var views, block := FindAllViews(s, user, env), AvailableFor(s, user, input, env);
            && block.excluded == S.FlatMap(OffTrackLine, views)
            && (!block.rateUnavailable ==>
                  S.Map((line: CountedLine) => line.goalId, block.counted) == S.FlatMap(OnTrackLine, views))
  {
    var views := FindAllViews(s, user, env);
    ReachableIsSound(s);
    ViewsArePlanned(s, user, env);
    BudgetPartitionsGoals(views, env.now);
    CountedIds(PendingOf(views), input.budgetCurrency, input.rate.GetOr(1.0));
  }

  lemma CountedIds(pending: seq<PendingGoal>, currency: Currency, rate: Rate)
    ensures S.Map((line: CountedLine) => line.goalId, CountedOf(pending, currency, rate))
         == S.Map((p: PendingGoal) => p.goalId, pending)
  {
  }

  /** In every reachable ledger, for every user and any income and expenses: an allocation is made exactly when the
      goals need more than the pool, and it hands out exactly the pool. */
  lemma UsersAllocationSpendsThePool(s: Store, user: nat, input: BudgetInput, env: Env)
    requires Reachable(s) && !AvailableFor(s, user, input, env).rateUnavailable
    ensures SharesThePool(AvailableFor(s, user, input, env), input.Pool())
    ensures var expenses := input.expenseRent + input.expenseFood + input.expenseOther;
            0 <= input.Pool() && input.Pool() as real <= Max(0.0, input.monthlyIncome - expenses)
  {
    ReachableIsSound(s);
    ViewsArePlanned(s, user, env);
    AllocationSpendsExactlyThePool(input, FindAllViews(s, user, env), env.now);
  }

  /** In every reachable ledger, whatever order the database lists a user's goals in: the same figures and lines. */
  lemma UsersGoalOrderDoesNotMatter(s: Store, user: nat, input: BudgetInput, env: Env, other: seq<GoalView>)
    requires Reachable(s) && multiset(other) == multiset(FindAllViews(s, user, env))
    ensures SameFigures(AvailableFor(s, user, input, env), BudgetOfGoals(input, other))
  {
    ReachableIsSound(s);
    ViewsArePlanned(s, user, env);
    ViewsAreDistinct(s, user, env);
    GoalOrderDoesNotMatter(input, FindAllViews(s, user, env), other, env.now);
  }

  /** In every reachable ledger the counted lines are the user's on-track goals', each with the goal's own name,
      currency, deadline and suggested amount, and the need in the budget's currency. */
  lemma UsersLinesAreTheGoals(s: Store, user: nat, input: BudgetInput, env: Env)
    requires Reachable(s) && !AvailableFor(s, user, input, env).rateUnavailable
    ensures var counted := AvailableFor(s, user, input, env).counted;
            var onTrack := S.Filter(IsOnTrack(), FindAllViews(s, user, env));
            |counted| == |onTrack|
            && forall i :: 0 <= i < |onTrack| ==> IsLineOf(counted[i], onTrack[i], input.budgetCurrency, input.rate)
  {
    ReachableIsSound(s);
    ViewsArePlanned(s, user, env);
    CountedLinesAreTheGoals(input, FindAllViews(s, user, env), env.now);
  }

  /** In every reachable ledger figures are missing exactly when there is no rate and the user has an on-track goal in
      the other currency. */
  lemma UsersRateUnavailableIff(s: Store, user: nat, input: BudgetInput, env: Env)
    requires Reachable(s)
    ensures AvailableFor(s, user, input, env).rateUnavailable <==>
              input.rate.None?
              && exists v :: v in FindAllViews(s, user, env)
                             && IsOnTrack()(v) && v.goal.currency != input.budgetCurrency
  {
    ReachableIsSound(s);
    ViewsArePlanned(s, user, env);
    RateUnavailableIff(input, FindAllViews(s, user, env), env.now);
  }

  /** In every reachable ledger, of two of a user's goals in an allocation the one due earlier comes first, and the
      later one gets nothing unless the earlier one is covered in full. */
  lemma UsersEarlierGoalIsServedFirst(s: Store, user: nat, input: BudgetInput, env: Env, a: GoalView, b: GoalView)
    returns (i: nat, j: nat)
    requires Reachable(s) && AvailableFor(s, user, input, env).allocation.Some?
    requires a in FindAllViews(s, user, env) && b in FindAllViews(s, user, env) && IsOnTrack()(a) && IsOnTrack()(b)
    requires a.goal.deadline.Some? && b.goal.deadline.Some? && a.goal.deadline.value < b.goal.deadline.value
    ensures var lines := AvailableFor(s, user, input, env).allocation.value;
            && i < j < |lines| && lines[i].goalId == a.goal.id && lines[j].goalId == b.goal.id
            && (lines[j].amount > 0 ==> lines[i].coveredFully)
  {
    var views := FindAllViews(s, user, env);
    ReachableIsSound(s);
    ViewsArePlanned(s, user, env);
    ViewsAreDistinct(s, user, env);
    i := GoalHasALine(input, views, env.now, a);
    j := GoalHasALine(input, views, env.now, b);
    EarlierDeadlineIsServedFirst(input, views, env.now, a, b, i, j);
  }
}
