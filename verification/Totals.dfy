/** Saved totals: the grouped pass, the single aggregate, the dashboard buckets, and what a split adds. */
module Totals {
  import opened Decimals
  import opened Conversion
  import opened GoalMath
  import opened Ledger
  import opened LedgerInvariant
  import S = Sequences

  // ----- Two ways to a goal's saved amount -----

  /** For every goal, the one-pass group-by holds what the goal's own aggregate computes. */
  lemma {:induction false} GroupedEqualsAggregate(entries: seq<Entry>, user: nat, goalId: nat)
    ensures var sums := GroupedSums(entries, user);
            (if goalId in sums then sums[goalId] else 0.0) == SavedOn(entries, user, goalId)
  {
    if entries == [] {
    } else {
      GroupedEqualsAggregate(entries[1..], user, goalId);
      if EntriesOn(user, goalId)(entries[0]) {
        var on := S.Filter(EntriesOn(user, goalId), entries);
        assert on[1..] == S.Filter(EntriesOn(user, goalId), entries[1..]);
      }
    }
  }

  /** The list view and the single view of a goal agree. */
  lemma ListAndSingleViewAgree(s: Store, user: nat, env: Env, i: nat)
    requires i < |GoalsNewestFirst(S.Filter(GoalsOf(user), s.goals))|
    ensures var goal := GoalsNewestFirst(S.Filter(GoalsOf(user), s.goals))[i];
            FindAllViews(s, user, env)[i] == AttachProgress(goal, SavedOn(s.entries, user, goal.id), env)
  {
    GroupedEqualsAggregate(s.entries, user, GoalsNewestFirst(S.Filter(GoalsOf(user), s.goals))[i].id);
  }

  // ----- The dashboard's fold -----

  datatype CurrencyTotal = CurrencyTotal(currency: Currency, savedAmount: real, targetAmount: real, goalCount: nat)

  function InCurrency(currency: Currency): GoalView -> bool { (v: GoalView) => v.goal.currency == currency }

  function SavedOf(): GoalView -> real { (v: GoalView) => v.progress.savedAmount }

  function TargetOf(): GoalView -> real { (v: GoalView) => v.goal.targetAmount }

  /** The bucket of one currency over some views. */
  function Bucket(currency: Currency, views: seq<GoalView>): CurrencyTotal {
    var mine := S.Filter(InCurrency(currency), views);
    CurrencyTotal(currency, S.Sum(SavedOf(), mine), S.Sum(TargetOf(), mine), |mine|)
  }

  /** The Map of buckets: one exact bucket for each currency that occurs, and no other. */
  ghost predicate ExactTotals(totals: map<Currency, CurrencyTotal>, views: seq<GoalView>) {
    forall c: Currency :: ExactAt(totals, views, c)
  }

  ghost predicate ExactAt(totals: map<Currency, CurrencyTotal>, views: seq<GoalView>, c: Currency) {
    if c in totals then totals[c] == Bucket(c, views) && totals[c].goalCount > 0
    else S.Filter(InCurrency(c), views) == []
  }

  function CountOf(totals: map<Currency, CurrencyTotal>, c: Currency): nat {
    if c in totals then totals[c].goalCount else 0
  }

  lemma BucketOneMore(currency: Currency, views: seq<GoalView>, v: GoalView)
    ensures var b := Bucket(currency, views);
            Bucket(currency, views + [v])
            == if v.goal.currency != currency then b
               else b.(savedAmount := b.savedAmount + v.progress.savedAmount,
                       targetAmount := b.targetAmount + v.goal.targetAmount,
                       goalCount := b.goalCount + 1)
  {
    S.FilterAppend(InCurrency(currency), views, [v]);
    var mine := S.Filter(InCurrency(currency), views);
    assert [v][1..] == [];
    if v.goal.currency == currency {
      assert S.Filter(InCurrency(currency), [v]) == [v];
      S.SumOneMore(SavedOf(), mine, v);
      S.SumOneMore(TargetOf(), mine, v);
    } else {
      assert S.Filter(InCurrency(currency), [v]) == [];
      assert mine + [] == mine;
    }
  }

  /** The bucket of v's currency after adding v. */
  function GrownBucket(totals: map<Currency, CurrencyTotal>, v: GoalView): CurrencyTotal {
    var c := v.goal.currency;
    var bucket := if c in totals then totals[c] else CurrencyTotal(c, 0.0, 0.0, 0);
    CurrencyTotal(c, bucket.savedAmount + v.progress.savedAmount, bucket.targetAmount + v.goal.targetAmount,
                  bucket.goalCount + 1)
  }

  lemma GrowingKeepsTotals(totals: map<Currency, CurrencyTotal>, views: seq<GoalView>, v: GoalView)
    requires ExactTotals(totals, views)
    ensures var after := totals[v.goal.currency := GrownBucket(totals, v)];
            && ExactTotals(after, views + [v])
            && CountOf(after, JPY) + CountOf(after, VND) == CountOf(totals, JPY) + CountOf(totals, VND) + 1
  {
    var c := v.goal.currency;
    BucketOneMore(c, views, v);
    OtherBucketStays(totals, views, v, c.Other());
    var after := totals[c := GrownBucket(totals, v)];
    forall d ensures ExactAt(after, views + [v], d) {
      assert ExactAt(totals, views, d);
    }
  }

  lemma OtherBucketStays(totals: map<Currency, CurrencyTotal>, views: seq<GoalView>, v: GoalView, c: Currency)
    requires ExactAt(totals, views, c) && c != v.goal.currency
    ensures ExactAt(totals, views + [v], c)
  {
    BucketOneMore(c, views, v);
    S.FilterAppend(InCurrency(c), views, [v]);
    assert S.Filter(InCurrency(c), [v]) == [];
  }

  /** The Map with its insertion order. */
  datatype Buckets = Buckets(totals: map<Currency, CurrencyTotal>, order: seq<Currency>)

  /** c is the next currency to be listed: view k has it and no earlier one does. */
  ghost predicate FirstAt(views: seq<GoalView>, c: Currency, k: nat) {
    && k < |views| && views[k].goal.currency == c
    && forall j :: 0 <= j < k ==> views[j].goal.currency != c
  }

  /** The buckets are listed once each, in the order their currencies first appear. */
  ghost predicate InOrderOfAppearance(order: seq<Currency>, views: seq<GoalView>) {
    && (forall c :: c in order <==> exists k :: FirstAt(views, c, k))
    && (forall i, j, k, m :: 0 <= i < j < |order| && FirstAt(views, order[i], k) && FirstAt(views, order[j], m) ==>
          k < m)
  }

  /** Exact buckets, listed by first appearance, whose counts add up to the number of views. */
  ghost predicate Accounts(b: Buckets, views: seq<GoalView>) {
    && ExactTotals(b.totals, views)
    && CountOf(b.totals, JPY) + CountOf(b.totals, VND) == |views|
    && (forall c :: c in b.order <==> c in b.totals)
    && InOrderOfAppearance(b.order, views)
  }

  function AddView(b: Buckets, v: GoalView): Buckets {
    var c := v.goal.currency;
    Buckets(b.totals[c := GrownBucket(b.totals, v)], if c in b.totals then b.order else b.order + [c])
  }

  lemma AddViewAccounts(b: Buckets, views: seq<GoalView>, v: GoalView, longer: seq<GoalView>)
    requires Accounts(b, views) && longer == views + [v]
    ensures Accounts(AddView(b, v), longer)
  {
    GrowingKeepsTotals(b.totals, views, v);
    OrderGrows(b.order, views, v, longer);
  }

  lemma FirstAtOneMore(views: seq<GoalView>, v: GoalView, longer: seq<GoalView>, c: Currency, k: nat)
    requires longer == views + [v]
    ensures FirstAt(longer, c, k) <==>
              FirstAt(views, c, k)
              || (k == |views| && v.goal.currency == c && forall j :: 0 <= j < k ==> views[j].goal.currency != c)
  {
    if k <= |views| {
      assert forall j :: 0 <= j < k ==> longer[j] == views[j];
    }
  }

  lemma SomeFirst(views: seq<GoalView>, j: nat)
    requires j < |views|
    ensures exists k :: FirstAt(views, views[j].goal.currency, k)
  {
    var c := views[j].goal.currency;
    var k := 0;
    while views[k].goal.currency != c
      invariant k <= j && forall i :: 0 <= i < k ==> views[i].goal.currency != c
      decreases j - k
    {
      k := k + 1;
    }
    assert FirstAt(views, c, k);
  }

  /** A currency appears first in a longer list where it did before, or at the end if it had not appeared. */
  lemma AppearsOneMore(views: seq<GoalView>, v: GoalView, longer: seq<GoalView>, c: Currency)
    requires longer == views + [v]
    ensures (exists k :: FirstAt(longer, c, k)) <==> (exists k :: FirstAt(views, c, k)) || v.goal.currency == c
  {
    if k :| FirstAt(longer, c, k) {
      FirstAtOneMore(views, v, longer, c, k);
    }
    if k :| FirstAt(views, c, k) {
      FirstAtOneMore(views, v, longer, c, k);
    }
    if v.goal.currency == c {
      assert longer[|views|] == v;
      SomeFirst(longer, |views|);
    }
  }

  lemma OrderGrows(order: seq<Currency>, views: seq<GoalView>, v: GoalView, longer: seq<GoalView>)
    requires InOrderOfAppearance(order, views) && longer == views + [v]
    ensures var c := v.goal.currency;
            InOrderOfAppearance(if c in order then order else order + [c], longer)
  {
    var c := v.goal.currency;
    var after := if c in order then order else order + [c];
    forall d ensures d in after <==> exists k :: FirstAt(longer, d, k) {
      AppearsOneMore(views, v, longer, d);
    }
    forall i, j, k, m | 0 <= i < j < |after| && FirstAt(longer, after[i], k) && FirstAt(longer, after[j], m)
      ensures k < m
    {
      assert after[i] in order;
      FirstAtOneMore(views, v, longer, after[i], k);
      FirstAtOneMore(views, v, longer, after[j], m);
      var p :| FirstAt(views, after[i], p);
      assert k == p;
    }
  }

  lemma EmptyAccounts()
    ensures Accounts(Buckets(map[], []), [])
  {
  }

  lemma AddNextViewAccounts(b: Buckets, views: seq<GoalView>, k: nat)
    requires k < |views| && Accounts(b, views[..k])
    ensures Accounts(AddView(b, views[k]), views[..k + 1])
  {
    AddViewAccounts(b, views[..k], views[k], views[..k + 1]);
  }

  /** The fold over the goals. */
  method TotalsByCurrency(views: seq<GoalView>) returns (buckets: Buckets)
    ensures Accounts(buckets, views)
  {
    buckets := Buckets(map[], []);
    EmptyAccounts();
    assert views[..0] == [];
    for k := 0 to |views|
      invariant Accounts(buckets, views[..k])
    {
      AddNextViewAccounts(buckets, views, k);
      buckets := AddView(buckets, views[k]);
    }
    assert views[..|views|] == views;
  }

  // ----- Conservation: buckets against the entries themselves -----

  function GoalInCurrency(currency: Currency): Goal -> bool { (g: Goal) => g.currency == currency }

  function SavedOnGoal(entries: seq<Entry>, user: nat): Goal -> real { (g: Goal) => SavedOn(entries, user, g.id) }

  function EntriesOnGoals(user: nat, ids: set<nat>): Entry -> bool { (e: Entry) => e.userId == user && e.goalId in ids }

  function EntriesInCurrency(s: Store, user: nat, currency: Currency): Entry -> bool {
    (e: Entry) => e.userId == user && CurrencyOf(s.goals, e.goalId) == Some(currency)
  }

  /** Adding up per goal is adding up the entries: every entry lies on exactly one goal. */
  lemma {:induction false} SumOverGoals(goals: seq<Goal>, entries: seq<Entry>, user: nat)
    requires S.UniqueBy(GoalKey(), goals)
    ensures S.Sum(SavedOnGoal(entries, user), goals)
            == S.Sum(FrozenAmount(), S.Filter(EntriesOnGoals(user, S.Keys(GoalKey(), goals)), entries))
  {
    if goals == [] {
      S.FilterNone(EntriesOnGoals(user, S.Keys(GoalKey(), goals)), entries);
    } else {
      SumOverGoals(goals[1..], entries, user);
      var ids := S.Keys(GoalKey(), goals[1..]);
      forall x | x in goals[1..] ensures x.id != goals[0].id {
        var k :| 0 <= k < |goals[1..]| && goals[1..][k] == x;
        assert EntryIdDiffers(goals, k + 1);
      }
      assert goals[0].id !in ids;
      SumOneMoreGoal(entries, user, ids, goals[0].id);
    }
  }

  ghost predicate EntryIdDiffers(goals: seq<Goal>, k: nat)
    requires 0 < k < |goals|
  {
    GoalKey()(goals[0]) != GoalKey()(goals[k])
  }

  lemma {:induction false} SumOneMoreGoal(entries: seq<Entry>, user: nat, ids: set<nat>, id: nat)
    requires id !in ids
    ensures S.Sum(FrozenAmount(), S.Filter(EntriesOnGoals(user, {id} + ids), entries))
            == SavedOn(entries, user, id) + S.Sum(FrozenAmount(), S.Filter(EntriesOnGoals(user, ids), entries))
  {
    if entries == [] {
    } else {
      SumOneMoreGoal(entries[1..], user, ids, id);
      FilterSumStep(EntriesOnGoals(user, {id} + ids), entries);
      FilterSumStep(EntriesOnGoals(user, ids), entries);
      FilterSumStep(EntriesOn(user, id), entries);
    }
  }

  lemma FilterSumStep(keep: Entry -> bool, entries: seq<Entry>)
    requires entries != []
    ensures S.Sum(FrozenAmount(), S.Filter(keep, entries))
            == (if keep(entries[0]) then entries[0].amountInGoalCurrency else 0.0)
               + S.Sum(FrozenAmount(), S.Filter(keep, entries[1..]))
  {
    if keep(entries[0]) {
      assert S.Filter(keep, entries)[1..] == S.Filter(keep, entries[1..]);
    }
  }

  lemma {:induction false} ViewsSumAsGoals(goals: seq<Goal>, entries: seq<Entry>, user: nat, env: Env,
                                           currency: Currency)
    ensures S.Sum(SavedOf(), S.Filter(InCurrency(currency), S.Map(ViewWith(GroupedSums(entries, user), env), goals)))
            == S.Sum(SavedOnGoal(entries, user), S.Filter(GoalInCurrency(currency), goals))
  {
    if goals == [] {
    } else {
      ViewsSumAsGoals(goals[1..], entries, user, env, currency);
      GroupedEqualsAggregate(entries, user, goals[0].id);
      var views := S.Map(ViewWith(GroupedSums(entries, user), env), goals);
      assert views[1..] == S.Map(ViewWith(GroupedSums(entries, user), env), goals[1..]);
      if goals[0].currency == currency {
        assert S.Filter(InCurrency(currency), views)[1..] == S.Filter(InCurrency(currency), views[1..]);
        assert S.Filter(GoalInCurrency(currency), goals)[1..] == S.Filter(GoalInCurrency(currency), goals[1..]);
      }
    }
  }

  lemma {:induction false} InsertGoalReorders(g: Goal, s: seq<Goal>)
    ensures multiset(InsertGoal(g, s)) == multiset([g] + s)
  {
    if s == [] || g.createdAt >= s[0].createdAt {
    } else {
      InsertGoalReorders(g, s[1..]);
      assert s == [s[0]] + s[1..];
    }
  }

  lemma {:induction false} GoalsNewestFirstReorders(s: seq<Goal>)
    ensures multiset(GoalsNewestFirst(s)) == multiset(s)
  {
    if s == [] {
    } else {
      GoalsNewestFirstReorders(s[1..]);
      InsertGoalReorders(s[0], GoalsNewestFirst(s[1..]));
      assert s == [s[0]] + s[1..];
    }
  }

  lemma OwnGoalIdsAreOneCurrency(s: Store, user: nat, bound: nat, currency: Currency, e: Entry)
    requires Structural(s, bound) && e in s.entries && e.userId == user
    ensures var mine := S.Filter(GoalInCurrency(currency), S.Filter(GoalsOf(user), s.goals));
            e.goalId in S.Keys(GoalKey(), mine) <==> CurrencyOf(s.goals, e.goalId) == Some(currency)
  {
    var mine := S.Filter(GoalInCurrency(currency), S.Filter(GoalsOf(user), s.goals));
    assert HasGoal(s.goals, e);
    var g :| g in s.goals && g.id == e.goalId;
    CurrencyOfGoal(s.goals, g);
    if g.currency == currency {
      assert g in mine && GoalKey()(g) in S.Keys(GoalKey(), mine);
    }
    if e.goalId in S.Keys(GoalKey(), mine) {
      var h :| h in mine && GoalKey()(h) == e.goalId;
      S.UniqueMember(GoalKey(), s.goals, g, h);
    }
  }

  /** In every consistent store, a dashboard bucket's saved amount is the sum of the frozen amounts
      of all the user's entries on goals of that currency. */
  lemma BucketConservesEntries(s: Store, user: nat, env: Env, bound: nat, currency: Currency)
    requires Structural(s, bound)
    ensures Bucket(currency, FindAllViews(s, user, env)).savedAmount
            == S.Sum(FrozenAmount(), S.Filter(EntriesInCurrency(s, user, currency), s.entries))
  {
    var own := S.Filter(GoalsOf(user), s.goals);
    var listed := GoalsNewestFirst(own);
    ViewsSumAsGoals(listed, s.entries, user, env, currency);
    GoalsNewestFirstReorders(own);
    S.FilterReordered(GoalInCurrency(currency), listed, own);
    var mine := S.Filter(GoalInCurrency(currency), own);
    S.SumReordered(SavedOnGoal(s.entries, user), S.Filter(GoalInCurrency(currency), listed), mine);
    S.FilterKeepsUnique(GoalKey(), GoalsOf(user), s.goals);
    S.FilterKeepsUnique(GoalKey(), GoalInCurrency(currency), own);
    SumOverGoals(mine, s.entries, user);
    forall e | e in s.entries
      ensures EntriesOnGoals(user, S.Keys(GoalKey(), mine))(e) == EntriesInCurrency(s, user, currency)(e)
    {
      if e.userId == user {
        OwnGoalIdsAreOneCurrency(s, user, bound, currency, e);
      }
    }
    S.FilterSame(EntriesOnGoals(user, S.Keys(GoalKey(), mine)), EntriesInCurrency(s, user, currency), s.entries);
  }

  function TargetAmount(): Goal -> real { (g: Goal) => g.targetAmount }

  lemma {:induction false} ViewsKeepGoals(goals: seq<Goal>, sums: map<nat, real>, env: Env, currency: Currency)
    ensures var mine := S.Filter(InCurrency(currency), S.Map(ViewWith(sums, env), goals));
            var own := S.Filter(GoalInCurrency(currency), goals);
            |mine| == |own| && S.Sum(TargetOf(), mine) == S.Sum(TargetAmount(), own)
  {
    if goals != [] {
      ViewsKeepGoals(goals[1..], sums, env, currency);
      var views := S.Map(ViewWith(sums, env), goals);
      assert views[1..] == S.Map(ViewWith(sums, env), goals[1..]);
      if goals[0].currency == currency {
        assert S.Filter(InCurrency(currency), views)[1..] == S.Filter(InCurrency(currency), views[1..]);
        assert S.Filter(GoalInCurrency(currency), goals)[1..] == S.Filter(GoalInCurrency(currency), goals[1..]);
      }
    }
  }

  /** A bucket's target amount and count are those of the user's goals of that currency. */
  lemma BucketConservesTargets(s: Store, user: nat, env: Env, currency: Currency)
    ensures var own := S.Filter(GoalInCurrency(currency), S.Filter(GoalsOf(user), s.goals));
            var bucket := Bucket(currency, FindAllViews(s, user, env));
            bucket.currency == currency && bucket.targetAmount == S.Sum(TargetAmount(), own)
            && bucket.goalCount == |own|
  {
    var own := S.Filter(GoalsOf(user), s.goals);
    var listed := GoalsNewestFirst(own);
    ViewsKeepGoals(listed, GroupedSums(s.entries, user), env, currency);
    GoalsNewestFirstReorders(own);
    S.FilterReordered(GoalInCurrency(currency), listed, own);
    S.EmptyReordering(S.Filter(GoalInCurrency(currency), listed), S.Filter(GoalInCurrency(currency), own));
    S.SumReordered(TargetAmount(), S.Filter(GoalInCurrency(currency), listed),
                   S.Filter(GoalInCurrency(currency), own));
  }

  /** The dashboard endpoint's totals over the user's current goals. */
  method GetDashboardTotals(s: Store, user: nat, env: Env, ghost bound: nat) returns (buckets: Buckets)
    requires Structural(s, bound)
    ensures forall c :: c in buckets.totals ==>
                          buckets.totals[c].savedAmount
                          == S.Sum(FrozenAmount(), S.Filter(EntriesInCurrency(s, user, c), s.entries))
    ensures CountOf(buckets.totals, JPY) + CountOf(buckets.totals, VND) == |S.Filter(GoalsOf(user), s.goals)|
    ensures Accounts(buckets, FindAllViews(s, user, env))
  {
    var views := FindAllViews(s, user, env);
    GoalsNewestFirstReorders(S.Filter(GoalsOf(user), s.goals));
    S.EmptyReordering(GoalsNewestFirst(S.Filter(GoalsOf(user), s.goals)), S.Filter(GoalsOf(user), s.goals));
    buckets := TotalsByCurrency(views);
    forall c | c in buckets.totals
      ensures buckets.totals[c].savedAmount == S.Sum(FrozenAmount(), S.Filter(EntriesInCurrency(s, user, c), s.entries))
    {
      assert ExactAt(buckets.totals, views, c);
      BucketConservesEntries(s, user, env, bound, c);
    }
  }

  // ----- What a split adds -----

  lemma OnlyRowOnGoal(rows: seq<Entry>, user: nat, goalId: nat, i: nat)
    requires i < |rows| && rows[i].goalId == goalId && rows[i].userId == user
    requires forall j :: 0 <= j < |rows| && j != i ==> rows[j].goalId != goalId
    ensures SavedOn(rows, user, goalId) == rows[i].amountInGoalCurrency
  {
    var on, row := EntriesOn(user, goalId), rows[i];
    assert rows == rows[..i] + ([row] + rows[i + 1..]);
    SavedOnAppend(rows[..i], [row] + rows[i + 1..], user, goalId);
    SavedOnAppend([row], rows[i + 1..], user, goalId);
    S.FilterNone(on, rows[..i]);
    S.FilterNone(on, rows[i + 1..]);
    FilterSumStep(on, [row]);
    assert [row][1..] == [];
  }

  lemma SavedOnAppend(entries: seq<Entry>, rows: seq<Entry>, user: nat, goalId: nat)
    ensures SavedOn(entries + rows, user, goalId) == SavedOn(entries, user, goalId) + SavedOn(rows, user, goalId)
  {
    S.FilterAppend(EntriesOn(user, goalId), entries, rows);
    S.SumAppend(FrozenAmount(), S.Filter(EntriesOn(user, goalId), entries), S.Filter(EntriesOn(user, goalId), rows));
  }

  /** An accepted split raises each of its goals by exactly that goal's own frozen amount. */
  lemma SplitRaisesItsGoals(s: Store, user: nat, r: Request, env: Env, i: nat)
    requires r.CreateSplit? && CreateSplitStep(s, user, r, env).reply.EntryRows? && i < |r.allocations|
    ensures var o, id := CreateSplitStep(s, user, r, env), r.allocations[i].goalId;
            SavedOn(o.store.entries, user, id) == SavedOn(s.entries, user, id) + o.reply.entries[i].amountInGoalCurrency
  {
    var o, id := CreateSplitStep(s, user, r, env), r.allocations[i].goalId;
    var rows := o.reply.entries;
    forall j | 0 <= j < |rows| && j != i ensures rows[j].goalId != id {
      if j < i {
        SplitIdsDistinct(r.allocations, j, i);
      } else {
        SplitIdsDistinct(r.allocations, i, j);
      }
    }
    OnlyRowOnGoal(rows, user, id, i);
    SavedOnAppend(s.entries, rows, user, id);
  }

  /** It moves no other goal, of this user or of any other. */
  lemma SplitMovesNoOtherGoal(s: Store, user: nat, r: Request, env: Env, owner: nat, goalId: nat)
    requires r.CreateSplit? && (owner != user || goalId !in SplitGoalIds(r.allocations))
    ensures SavedOn(CreateSplitStep(s, user, r, env).store.entries, owner, goalId) == SavedOn(s.entries, owner, goalId)
  {
    var o := CreateSplitStep(s, user, r, env);
    if o.reply.EntryRows? {
      var rows := o.reply.entries;
      forall e | e in rows ensures !EntriesOn(owner, goalId)(e) {
        var j :| 0 <= j < |rows| && rows[j] == e;
        assert r.allocations[j] in r.allocations;
      }
      S.FilterNone(EntriesOn(owner, goalId), rows);
      SavedOnAppend(s.entries, rows, owner, goalId);
    }
  }
}
