/** What every call keeps true of the ledger, and what a split guarantees. */
module LedgerInvariant {
  import opened Decimals
  import opened Conversion
  import opened GoalMath
  import opened Ledger
  import S = Sequences

  function GoalKey(): Goal -> nat { (g: Goal) => g.id }

  function EntryKey(): Entry -> nat { (e: Entry) => e.id }

  /** Ids are unique and already handed out, and every entry's goal exists and belongs to the entry's user. */
  ghost predicate Structural(s: Store, bound: nat) {
    && S.UniqueBy(GoalKey(), s.goals) && S.UniqueBy(EntryKey(), s.entries)
    && (forall g :: g in s.goals ==> g.id < bound)
    && (forall e :: e in s.entries ==> e.id < bound)
    && (forall e :: e in s.entries ==> HasGoal(s.goals, e))
    && (forall e, g :: e in s.entries && g in s.goals && g.id == e.goalId ==> g.userId == e.userId)
  }

  ghost predicate HasGoal(goals: seq<Goal>, e: Entry) {
    exists g :: g in goals && g.id == e.goalId
  }

  /** The frozen pair of an entry on a goal of the given currency. */
  ghost predicate FrozenOk(e: Entry, goalCurrency: Currency) {
    if e.currency == goalCurrency then e.amountInGoalCurrency == e.amount && e.fxRateUsed == None
    else e.fxRateUsed.Some? && e.amountInGoalCurrency == ConvertAmount(e.amount, e.currency, e.fxRateUsed.value)
  }

  /** The pair was frozen from the amount a, of which the stored amount keeps two decimals. */
  ghost predicate FrozenFrom(e: Entry, goalCurrency: Currency, a: real) {
    && e.amount == ToCents(a)
    && if e.currency == goalCurrency then e.amountInGoalCurrency == ToCents(a) && e.fxRateUsed == None
       else e.fxRateUsed.Some? && e.amountInGoalCurrency == ConvertAmount(a, e.currency, e.fxRateUsed.value)
  }

  /** Every pair was frozen from an amount that rounds to the stored one; outside `rough` from the stored one itself. */
  ghost predicate PairOk(e: Entry, goalCurrency: Currency, rough: set<nat>) {
    && (exists a :: FrozenFrom(e, goalCurrency, a))
    && (e.id !in rough ==> FrozenOk(e, goalCurrency))
  }

  ghost predicate LedgerInv(s: Store, bound: nat, rough: set<nat>) {
    && Structural(s, bound)
    && (forall e :: e in s.entries ==> IsCents(e.amount))
    && (forall e, g :: e in s.entries && g in s.goals && g.id == e.goalId ==> PairOk(e, g.currency, rough))
  }

  /** The entries last written with an amount of more than two decimals. */
  function RoughAfter(rough: set<nat>, r: Request, reply: Reply, nextId: nat): set<nat> {
    match r
    case CreateEntry(_, amount, _, _, _) => if reply.EntryRow? && !IsCents(amount) then rough + {nextId} else rough
    case CreateSplit(_, _, allocations) =>
      if reply.EntryRows? then rough + (set i: nat | i < |allocations| && !IsCents(allocations[i].amount) :: nextId + i)
      else rough
    case UpdateEntry(id, newAmount, _, _, _) =>
      if !reply.EntryRow? || !Refreezes(r) then rough
      else if newAmount.Some? && !IsCents(newAmount.value) then rough + {id}
      else rough - {id}
    case _ => rough
  }

  /** Amounts with at most two decimals, as the endpoints for single entries check; the split endpoint does not. */
  ghost predicate TwoDecimals(r: Request) {
    match r
    case CreateEntry(_, amount, _, _, _) => IsCents(amount)
    case CreateSplit(_, _, allocations) => forall a :: a in allocations ==> IsCents(a.amount)
    case UpdateEntry(_, newAmount, _, _, _) => newAmount.Some? ==> IsCents(newAmount.value)
    case _ => true
  }

  // ----- Looking up goals -----

  lemma FirstOfFilter<T(!new)>(keep: T -> bool, s: seq<T>)
    ensures First(S.Filter(keep, s)).Some? ==>
              First(S.Filter(keep, s)).value in s && keep(First(S.Filter(keep, s)).value)
    ensures First(S.Filter(keep, s)).None? ==> forall x :: x in s ==> !keep(x)
  {
    var r := S.Filter(keep, s);
    if r != [] {
      assert r[0] in r;
    }
  }

  lemma CurrencyOfGoal(goals: seq<Goal>, g: Goal)
    requires S.UniqueBy(GoalKey(), goals) && g in goals
    ensures CurrencyOf(goals, g.id) == Some(g.currency)
  {
    FirstOfFilter(GoalWithId(g.id), goals);
    var found := First(S.Filter(GoalWithId(g.id), goals));
    assert found.Some?;
    S.UniqueMember(GoalKey(), goals, g, found.value);
  }

  // ----- Splits -----

  lemma SplitIdsDistinct(allocations: seq<SplitLine>, i: nat, j: nat)
    requires |SplitGoalIds(allocations)| == |allocations| && i < j < |allocations|
    ensures allocations[i].goalId != allocations[j].goalId
  {
    if allocations[i].goalId == allocations[j].goalId {
      RepeatedIdAddsNothing(allocations, i, j);
      SplitIdsAtMost(allocations[..j] + allocations[j + 1..]);
    }
  }

  lemma RepeatedIdAddsNothing(allocations: seq<SplitLine>, i: nat, j: nat)
    requires i < j < |allocations| && allocations[i].goalId == allocations[j].goalId
    ensures SplitGoalIds(allocations) == SplitGoalIds(allocations[..j] + allocations[j + 1..])
  {
    var rest := allocations[..j] + allocations[j + 1..];
    forall a | a in allocations ensures a.goalId in SplitGoalIds(rest) {
      var k :| 0 <= k < |allocations| && allocations[k] == a;
      var n := if k == j then i else if k < j then k else k - 1;
      assert rest[n].goalId == a.goalId;
    }
  }

  lemma {:induction false} SplitIdsAtMost(allocations: seq<SplitLine>)
    ensures |SplitGoalIds(allocations)| <= |allocations|
  {
    if allocations == [] {
    } else {
      SplitIdsAtMost(allocations[1..]);
      assert SplitGoalIds(allocations) == {allocations[0].goalId} + SplitGoalIds(allocations[1..]);
    }
  }

  ghost predicate OwnsAll(goals: seq<Goal>, user: nat, ids: set<nat>) {
    forall id :: id in ids ==> exists g :: g in goals && g.id == id && g.userId == user
  }

  /** With ids free of duplicates, comparing two lengths decides ownership of every goal of a split. */
  lemma LengthsMatchIffAllOwned(goals: seq<Goal>, user: nat, allocations: seq<SplitLine>)
    requires S.UniqueBy(GoalKey(), goals)
    requires |SplitGoalIds(allocations)| == |allocations|
    ensures |S.Filter(OwnGoalIn(user, SplitGoalIds(allocations)), goals)| == |allocations|
            <==> OwnsAll(goals, user, SplitGoalIds(allocations))
  {
    var ids := SplitGoalIds(allocations);
    var found := S.Filter(OwnGoalIn(user, ids), goals);
    S.FilterKeepsUnique(GoalKey(), OwnGoalIn(user, ids), goals);
    S.UniqueKeysCount(GoalKey(), found);
    var foundIds := S.Keys(GoalKey(), found);
    assert foundIds <= ids;
    if |found| == |allocations| {
      S.SubsetOfSameSize(foundIds, ids);
      forall id | id in ids ensures exists g :: g in goals && g.id == id && g.userId == user {
        var g :| g in found && GoalKey()(g) == id;
      }
    }
    if OwnsAll(goals, user, ids) {
      forall id | id in ids ensures id in foundIds {
        var g :| g in goals && g.id == id && g.userId == user;
        assert g in found && GoalKey()(g) in foundIds;
      }
      assert foundIds == ids;
    }
  }

  /** What an accepted split has checked: distinct owned goals, found with their own currencies, positive
      amounts, and a rate if any currency differs. */
  lemma AcceptedSplit(s: Store, user: nat, r: Request, env: Env, i: nat) returns (g: Goal)
    requires r.CreateSplit? && S.UniqueBy(GoalKey(), s.goals)
    requires CreateSplitStep(s, user, r, env).reply.EntryRows? && i < |r.allocations|
    ensures g in s.goals && g.id == r.allocations[i].goalId && g.userId == user
    ensures CurrencyOf(S.Filter(OwnGoalIn(user, SplitGoalIds(r.allocations)), s.goals), g.id) == Some(g.currency)
    ensures r.allocations[i].currency != g.currency ==> env.rate.Some?
    ensures r.allocations[i].amount > 0.0
  {
    var ids := SplitGoalIds(r.allocations);
    var found := S.Filter(OwnGoalIn(user, ids), s.goals);
    LengthsMatchIffAllOwned(s.goals, user, r.allocations);
    var a := r.allocations[i];
    assert a in r.allocations && a.goalId in ids;
    g :| g in s.goals && g.id == a.goalId && g.userId == user;
    S.FilterKeepsUnique(GoalKey(), OwnGoalIn(user, ids), s.goals);
    CurrencyOfGoal(found, g);
  }

  /** The row written for one allocation: its own frozen amount, and for a cross-currency line the call's one rate. */
  lemma SplitRowIsFrozen(s: Store, user: nat, r: Request, env: Env, i: nat, g: Goal)
    requires r.CreateSplit? && S.UniqueBy(GoalKey(), s.goals)
    requires CreateSplitStep(s, user, r, env).reply.EntryRows? && i < |r.allocations|
    requires g in s.goals && g.id == r.allocations[i].goalId
    ensures var row, a := CreateSplitStep(s, user, r, env).reply.entries[i], r.allocations[i];
            && row.id == env.nextId + i && row.userId == user == g.userId && row.goalId == a.goalId
            && row.currency == a.currency && row.amount == ToCents(a.amount)
            && row.fxRateUsed == (if a.currency == g.currency then None else env.rate)
            && FrozenFrom(row, g.currency, a.amount) && (IsCents(a.amount) ==> FrozenOk(row, g.currency))
  {
    var h := AcceptedSplit(s, user, r, env, i);
    S.UniqueMember(GoalKey(), s.goals, g, h);
    var row, a := CreateSplitStep(s, user, r, env).reply.entries[i], r.allocations[i];
    var frozen := FreezeEntryAmount(a.amount, a.currency, g.currency, env.rate).value;
    RowIsFrozenFrom(row, g.currency, a.amount, frozen, env.rate);
    ToCentsFixesCents(a.amount);
  }

  /** A stored row keeps the pair frozen from its unrounded amount. */
  lemma RowIsFrozenFrom(row: Entry, goalCurrency: Currency, amount: real, frozen: Frozen, rate: Option<Rate>)
    requires FreezeEntryAmount(amount, row.currency, goalCurrency, rate) == Some(frozen)
    requires row.amount == ToCents(amount) && row.fxRateUsed == frozen.fxRateUsed
    requires row.amountInGoalCurrency == ToCents(frozen.amountInGoalCurrency)
    ensures FrozenFrom(row, goalCurrency, amount) && IsCents(row.amount)
    ensures row.currency != goalCurrency ==> row.fxRateUsed == rate
  {
    if row.currency != goalCurrency {
      ToCentsFixesCents(ConvertAmount(amount, row.currency, rate.value));
    }
  }

  lemma FrozenFromIsOk(e: Entry, goalCurrency: Currency, a: real, rough: set<nat>)
    requires FrozenFrom(e, goalCurrency, a) && (e.id !in rough ==> IsCents(a))
    ensures PairOk(e, goalCurrency, rough)
  {
    ToCentsFixesCents(a);
  }

  /** A split writes one row per allocation, in order, or nothing. */
  lemma SplitIsAllOrNothing(s: Store, user: nat, r: Request, env: Env)
    requires r.CreateSplit?
    ensures var o := CreateSplitStep(s, user, r, env);
            && o.store.goals == s.goals
            && (if o.reply.EntryRows? then o.store.entries == s.entries + o.reply.entries
                                           && |o.reply.entries| == |r.allocations|
                else o.reply.Failed? && o.store == s)
  {
  }

  // ----- Each call keeps the structure -----

  lemma StepKeepsStructure(s: Store, user: nat, r: Request, env: Env, bound: nat)
    requires Structural(s, bound) && env.nextId >= bound
    ensures Structural(Step(s, user, r, env).store, env.nextId + NewRows(r))
  {
    match r
    case CreateGoal(_, _, _, _) => CreateGoalKeepsStructure(s, user, r, env, bound);
    case FindAllGoals =>
    case FindGoal(_) =>
    case UpdateGoal(_, _, _, _) => UpdateGoalKeepsStructure(s, user, r, env, bound);
    case RemoveGoal(_) => RemoveGoalKeepsStructure(s, user, r, bound);
    case CreateEntry(_, _, _, _, _) => CreateEntryKeepsStructure(s, user, r, env, bound);
    case CreateSplit(_, _, _) => CreateSplitKeepsStructure(s, user, r, env, bound);
    case ListEntries(_, _, _) =>
    case UpdateEntry(_, _, _, _, _) => UpdateEntryKeepsStructure(s, user, r, env, bound);
    case RemoveEntry(_) => RemoveEntryKeepsStructure(s, user, r, bound);
  }

  lemma CreateGoalKeepsStructure(s: Store, user: nat, r: Request, env: Env, bound: nat)
    requires r.CreateGoal? && Structural(s, bound) && env.nextId >= bound
    ensures Structural(CreateGoalStep(s, user, r, env).store, env.nextId + 1)
  {
    var t := CreateGoalStep(s, user, r, env).store;
    forall e | e in s.entries ensures HasGoal(t.goals, e) {
      assert HasGoal(s.goals, e);
      var g :| g in s.goals && g.id == e.goalId;
      assert g in t.goals;
    }
  }

  lemma RemoveEntryKeepsStructure(s: Store, user: nat, r: Request, bound: nat)
    requires r.RemoveEntry? && Structural(s, bound)
    ensures Structural(RemoveEntryStep(s, user, r).store, bound)
  {
    S.FilterKeepsUnique(EntryKey(), OtherEntry(user, r.id), s.entries);
  }

  lemma UpdateGoalKeepsStructure(s: Store, user: nat, r: Request, env: Env, bound: nat)
    requires r.UpdateGoal? && Structural(s, bound)
    ensures Structural(UpdateGoalStep(s, user, r, env).store, bound)
  {
    EditingGoalsKeepsStructure(s, UpdateGoalStep(s, user, r, env).store.goals, bound);
  }

  lemma EditingGoalsKeepsStructure(s: Store, goals: seq<Goal>, bound: nat)
    requires Structural(s, bound) && |goals| == |s.goals|
    requires forall i :: 0 <= i < |goals| ==> goals[i].id == s.goals[i].id && goals[i].userId == s.goals[i].userId
    ensures Structural(s.(goals := goals), bound)
  {
    forall e | e in s.entries ensures HasGoal(goals, e) {
      assert HasGoal(s.goals, e);
      var g :| g in s.goals && g.id == e.goalId;
      var i :| 0 <= i < |s.goals| && s.goals[i] == g;
      assert goals[i] in goals;
    }
    forall e, g | e in s.entries && g in goals && g.id == e.goalId ensures g.userId == e.userId {
      var i :| 0 <= i < |goals| && goals[i] == g;
      assert s.goals[i] in s.goals;
    }
  }

  lemma RemoveGoalKeepsStructure(s: Store, user: nat, r: Request, bound: nat)
    requires r.RemoveGoal? && Structural(s, bound)
    ensures Structural(RemoveGoalStep(s, user, r).store, bound)
  {
    S.FilterKeepsUnique(GoalKey(), OtherGoal(user, r.id), s.goals);
    S.FilterKeepsUnique(EntryKey(), NotOnGoal(r.id), s.entries);
    var t := RemoveGoalStep(s, user, r).store;
    forall e | e in t.entries ensures HasGoal(t.goals, e) {
      assert e in s.entries;
      var g :| g in s.goals && g.id == e.goalId;
      assert g in t.goals;
    }
  }

  lemma CreateEntryKeepsStructure(s: Store, user: nat, r: Request, env: Env, bound: nat)
    requires r.CreateEntry? && Structural(s, bound) && env.nextId >= bound
    ensures Structural(CreateEntryStep(s, user, r, env).store, env.nextId + 1)
  {
    FirstOfFilter(OwnGoal(user, r.goalId), s.goals);
    var o := CreateEntryStep(s, user, r, env);
    if o.reply.EntryRow? {
      var goal := First(S.Filter(OwnGoal(user, r.goalId), s.goals)).value;
      forall g | g in s.goals && g.id == r.goalId ensures g == goal {
        S.UniqueMember(GoalKey(), s.goals, g, goal);
      }
    }
  }

  lemma CreateSplitKeepsStructure(s: Store, user: nat, r: Request, env: Env, bound: nat)
    requires r.CreateSplit? && Structural(s, bound) && env.nextId >= bound
    ensures Structural(CreateSplitStep(s, user, r, env).store, env.nextId + |r.allocations|)
  {
    var o := CreateSplitStep(s, user, r, env);
    if o.reply.EntryRows? {
      SplitRowsBelong(s, user, r, env);
      AppendKeepsStructure(s, o.reply.entries, env.nextId, bound);
      assert o.store == s.(entries := s.entries + o.reply.entries);
    } else {
      assert o.store == s;
    }
  }

  lemma SplitRowsBelong(s: Store, user: nat, r: Request, env: Env)
    requires r.CreateSplit? && S.UniqueBy(GoalKey(), s.goals)
    requires CreateSplitStep(s, user, r, env).reply.EntryRows?
    ensures var rows := CreateSplitStep(s, user, r, env).reply.entries;
            && |rows| == |r.allocations|
            && forall i :: 0 <= i < |rows| ==> rows[i].id == env.nextId + i && BelongsToItsGoal(s.goals, rows[i])
  {
    forall i | 0 <= i < |r.allocations|
      ensures var rows := CreateSplitStep(s, user, r, env).reply.entries;
              rows[i].id == env.nextId + i && BelongsToItsGoal(s.goals, rows[i])
    {
      SplitRowBelongs(s, user, r, env, i);
    }
  }

  lemma SplitRowBelongs(s: Store, user: nat, r: Request, env: Env, i: nat)
    requires r.CreateSplit? && S.UniqueBy(GoalKey(), s.goals)
    requires CreateSplitStep(s, user, r, env).reply.EntryRows? && i < |r.allocations|
    ensures BelongsToItsGoal(s.goals, CreateSplitStep(s, user, r, env).reply.entries[i])
    ensures CreateSplitStep(s, user, r, env).reply.entries[i].id == env.nextId + i
  {
    var h := AcceptedSplit(s, user, r, env, i);
    forall g | g in s.goals && g.id == h.id ensures g == h {
      S.UniqueMember(GoalKey(), s.goals, g, h);
    }
  }

  ghost predicate BelongsToItsGoal(goals: seq<Goal>, e: Entry) {
    HasGoal(goals, e) && forall g :: g in goals && g.id == e.goalId ==> g.userId == e.userId
  }

  lemma AppendKeepsStructure(s: Store, rows: seq<Entry>, first: nat, bound: nat)
    requires Structural(s, bound) && bound <= first
    requires forall i :: 0 <= i < |rows| ==> rows[i].id == first + i && BelongsToItsGoal(s.goals, rows[i])
    ensures Structural(s.(entries := s.entries + rows), first + |rows|)
  {
  }

  lemma UpdateEntryKeepsStructure(s: Store, user: nat, r: Request, env: Env, bound: nat)
    requires r.UpdateEntry? && Structural(s, bound)
    ensures Structural(UpdateEntryStep(s, user, r, env).store, bound)
  {
    EditingEntriesKeepsStructure(s, UpdateEntryStep(s, user, r, env).store.entries, bound);
  }

  lemma EditingEntriesKeepsStructure(s: Store, entries: seq<Entry>, bound: nat)
    requires Structural(s, bound) && |entries| == |s.entries|
    requires forall i :: 0 <= i < |entries| ==>
                           && entries[i].id == s.entries[i].id && entries[i].goalId == s.entries[i].goalId
                           && entries[i].userId == s.entries[i].userId
    ensures Structural(s.(entries := entries), bound)
  {
    forall i | 0 <= i < |entries| ensures BelongsToItsGoal(s.goals, entries[i]) {
      assert s.entries[i] in s.entries && HasGoal(s.goals, s.entries[i]);
    }
  }

  // ----- Each call keeps the frozen pairs -----

  /** Any call, with any amounts, keeps every pair right, up to the rounding of amounts with more than two decimals. */
  lemma StepKeepsLedger(s: Store, user: nat, r: Request, env: Env, bound: nat, rough: set<nat>)
    requires LedgerInv(s, bound, rough) && env.nextId >= bound
    ensures var o := Step(s, user, r, env);
            LedgerInv(o.store, env.nextId + NewRows(r), RoughAfter(rough, r, o.reply, env.nextId))
  {
    StepKeepsStructure(s, user, r, env, bound);
    var o := Step(s, user, r, env);
    var t, after := o.store, RoughAfter(rough, r, o.reply, env.nextId);
    forall e, g | e in t.entries && g in t.goals && g.id == e.goalId
      ensures PairOk(e, g.currency, after) && IsCents(e.amount)
    {
      StepKeepsPair(s, user, r, env, bound, rough, e, g);
    }
    forall e | e in t.entries ensures IsCents(e.amount) {
      assert HasGoal(t.goals, e);
      var g :| g in t.goals && g.id == e.goalId;
    }
  }

  lemma StepKeepsPair(s: Store, user: nat, r: Request, env: Env, bound: nat, rough: set<nat>, e: Entry, g: Goal)
    requires LedgerInv(s, bound, rough) && env.nextId >= bound
    requires e in Step(s, user, r, env).store.entries && g in Step(s, user, r, env).store.goals && g.id == e.goalId
    ensures PairOk(e, g.currency, RoughAfter(rough, r, Step(s, user, r, env).reply, env.nextId)) && IsCents(e.amount)
  {
    var t := Step(s, user, r, env).store;
    match r
    case CreateGoal(_, _, _, _) =>
      assert HasGoal(s.goals, e);
    case FindAllGoals =>
    case FindGoal(_) =>
    case UpdateGoal(_, _, _, _) =>
      var i :| 0 <= i < |t.goals| && t.goals[i] == g;
      assert s.goals[i] in s.goals;
    case RemoveGoal(_) =>
    case CreateEntry(_, _, _, _, _) => CreateKeepsPair(s, user, r, env, bound, rough, e, g);
    case CreateSplit(_, _, _) => SplitKeepsPair(s, user, r, env, bound, rough, e, g);
    case ListEntries(_, _, _) =>
    case UpdateEntry(_, _, _, _, _) => UpdateKeepsPair(s, user, r, env, bound, rough, e, g);
    case RemoveEntry(_) =>
  }

  lemma CreateKeepsPair(s: Store, user: nat, r: Request, env: Env, bound: nat, rough: set<nat>, e: Entry, g: Goal)
    requires r.CreateEntry? && LedgerInv(s, bound, rough)
    requires e in CreateEntryStep(s, user, r, env).store.entries && g in s.goals && g.id == e.goalId
    ensures PairOk(e, g.currency, RoughAfter(rough, r, CreateEntryStep(s, user, r, env).reply, env.nextId))
    ensures IsCents(e.amount)
  {
    if e !in s.entries {
      FirstOfFilter(OwnGoal(user, r.goalId), s.goals);
      S.UniqueMember(GoalKey(), s.goals, g, First(S.Filter(OwnGoal(user, r.goalId), s.goals)).value);
      var frozen := FreezeEntryAmount(r.amount, r.currency, g.currency, env.rate).value;
      RowIsFrozenFrom(e, g.currency, r.amount, frozen, env.rate);
      FrozenFromIsOk(e, g.currency, r.amount, RoughAfter(rough, r, CreateEntryStep(s, user, r, env).reply, env.nextId));
    }
  }

  lemma SplitKeepsPair(s: Store, user: nat, r: Request, env: Env, bound: nat, rough: set<nat>, e: Entry, g: Goal)
    requires r.CreateSplit? && LedgerInv(s, bound, rough)
    requires e in CreateSplitStep(s, user, r, env).store.entries && g in s.goals && g.id == e.goalId
    ensures PairOk(e, g.currency, RoughAfter(rough, r, CreateSplitStep(s, user, r, env).reply, env.nextId))
    ensures IsCents(e.amount)
  {
    var reply := CreateSplitStep(s, user, r, env).reply;
    if e in s.entries {
      assert PairOk(e, g.currency, rough);
      OtherPairStays(e, g.currency, rough, RoughAfter(rough, r, reply, env.nextId));
    } else {
      var i :| 0 <= i < |reply.entries| && reply.entries[i] == e;
      SplitRowPairOk(s, user, r, env, rough, i, g);
    }
  }

  lemma SplitRowPairOk(s: Store, user: nat, r: Request, env: Env, rough: set<nat>, i: nat, g: Goal)
    requires r.CreateSplit? && S.UniqueBy(GoalKey(), s.goals)
    requires CreateSplitStep(s, user, r, env).reply.EntryRows? && i < |r.allocations|
    requires g in s.goals && g.id == r.allocations[i].goalId
    ensures var reply := CreateSplitStep(s, user, r, env).reply;
            && PairOk(reply.entries[i], g.currency, RoughAfter(rough, r, reply, env.nextId))
            && IsCents(reply.entries[i].amount)
  {
    var reply := CreateSplitStep(s, user, r, env).reply;
    SplitRowIsFrozen(s, user, r, env, i, g);
    RoughSplitLine(rough, r, reply, env.nextId, i);
    FrozenFromIsOk(reply.entries[i], g.currency, r.allocations[i].amount, RoughAfter(rough, r, reply, env.nextId));
  }

  lemma RoughSplitLine(rough: set<nat>, r: Request, reply: Reply, nextId: nat, i: nat)
    requires r.CreateSplit? && reply.EntryRows? && i < |r.allocations|
    ensures nextId + i !in RoughAfter(rough, r, reply, nextId) ==> IsCents(r.allocations[i].amount)
  {
  }

  lemma OtherPairStays(e: Entry, goalCurrency: Currency, rough: set<nat>, after: set<nat>)
    requires PairOk(e, goalCurrency, rough) && (e.id in rough ==> e.id in after)
    ensures PairOk(e, goalCurrency, after)
  {
  }

  lemma UpdateKeepsPair(s: Store, user: nat, r: Request, env: Env, bound: nat, rough: set<nat>, e: Entry, g: Goal)
    requires r.UpdateEntry? && LedgerInv(s, bound, rough)
    requires e in UpdateEntryStep(s, user, r, env).store.entries && g in s.goals && g.id == e.goalId
    ensures PairOk(e, g.currency, RoughAfter(rough, r, UpdateEntryStep(s, user, r, env).reply, env.nextId))
    ensures IsCents(e.amount)
  {
    var was := EntryBefore(s, user, r, env, bound, e);
    assert PairOk(was, g.currency, rough) && IsCents(was.amount);
    CurrencyOfGoal(s.goals, g);
    PairAfterUpdate(s, r, env, rough, was, e, g.currency, UpdateEntryStep(s, user, r, env).reply);
  }

  /** What the reply says became of an entry. */
  ghost predicate BecomesEntry(s: Store, r: Request, env: Env, was: Entry, e: Entry, reply: Reply)
    requires r.UpdateEntry?
  {
    if reply.EntryRow? && was.id == r.id
    then reply == EntryRow(e) && e == EditedEntry(r, Refrozen(s.goals, was, r, env))(was)
         && (Refreezes(r) ==> Refrozen(s.goals, was, r, env).Some?)
    else e == was
  }

  lemma PairAfterUpdate(s: Store, r: Request, env: Env, rough: set<nat>, was: Entry, e: Entry, goalCurrency: Currency,
                        reply: Reply)
    requires r.UpdateEntry? && BecomesEntry(s, r, env, was, e, reply)
    requires PairOk(was, goalCurrency, rough) && IsCents(was.amount)
    requires CurrencyOf(s.goals, was.goalId) == Some(goalCurrency)
    ensures PairOk(e, goalCurrency, RoughAfter(rough, r, reply, env.nextId)) && IsCents(e.amount)
  {
    if reply.EntryRow? && was.id == r.id {
      EditKeepsPair(s, r, env, rough, was, e, goalCurrency);
    } else {
      OtherPairStays(was, goalCurrency, rough, RoughAfter(rough, r, reply, env.nextId));
    }
  }

  /** The entry an edited table holds is the old one, or its edit if it is the one asked for. */
  lemma EntryBefore(s: Store, user: nat, r: Request, env: Env, bound: nat, e: Entry) returns (was: Entry)
    requires r.UpdateEntry? && Structural(s, bound) && e in UpdateEntryStep(s, user, r, env).store.entries
    ensures was in s.entries && was.goalId == e.goalId
    ensures BecomesEntry(s, r, env, was, e, UpdateEntryStep(s, user, r, env).reply)
  {
    var o := UpdateEntryStep(s, user, r, env);
    var i :| 0 <= i < |o.store.entries| && o.store.entries[i] == e;
    was := s.entries[i];
    assert was in s.entries;
    if o.reply.EntryRow? {
      FirstOfFilter(OwnEntry(user, r.id), s.entries);
      var found := First(S.Filter(OwnEntry(user, r.id), s.entries)).value;
      if was.id == r.id {
        S.UniqueMember(EntryKey(), s.entries, was, found);
      }
    }
  }

  lemma EditKeepsPair(s: Store, r: Request, env: Env, rough: set<nat>, was: Entry, e: Entry, goalCurrency: Currency)
    requires r.UpdateEntry? && was.id == r.id && IsCents(was.amount) && PairOk(was, goalCurrency, rough)
    requires CurrencyOf(s.goals, was.goalId) == Some(goalCurrency)
    requires e == EditedEntry(r, Refrozen(s.goals, was, r, env))(was)
    requires Refreezes(r) ==> Refrozen(s.goals, was, r, env).Some?
    ensures PairOk(e, goalCurrency, RoughAfter(rough, r, EntryRow(e), env.nextId)) && IsCents(e.amount)
  {
    if Refreezes(r) {
      var amount := r.newAmount.GetOr(was.amount);
      ToCentsFixesCents(was.amount);
      RowIsFrozenFrom(e, goalCurrency, amount, Refrozen(s.goals, was, r, env).value, env.rate);
      FrozenFromIsOk(e, goalCurrency, amount, RoughAfter(rough, r, EntryRow(e), env.nextId));
    } else {
      var a :| FrozenFrom(was, goalCurrency, a);
      assert FrozenFrom(e, goalCurrency, a);
    }
  }

  /** The frozen pair of a stored entry changes only when its owner edits its amount or currency;
      no other call and no later rate ever touches it. */
  lemma OnlyEditsChangeFrozenPair(s: Store, user: nat, r: Request, env: Env, bound: nat, e: Entry, after: Entry)
    requires Structural(s, bound) && env.nextId >= bound
    requires e in s.entries && after in Step(s, user, r, env).store.entries && after.id == e.id
    requires after.amountInGoalCurrency != e.amountInGoalCurrency || after.fxRateUsed != e.fxRateUsed
    ensures r.UpdateEntry? && r.id == e.id && e.userId == user && (r.newAmount.Some? || r.newCurrency.Some?)
  {
    var t := Step(s, user, r, env).store;
    if r.UpdateEntry? {
      var i :| 0 <= i < |t.entries| && t.entries[i] == after;
      assert s.entries[i] in s.entries;
      S.UniqueMember(EntryKey(), s.entries, e, s.entries[i]);
    } else if after in s.entries {
      S.UniqueMember(EntryKey(), s.entries, e, after);
    }
  }

  // ----- Whole runs -----

  datatype Call = Call(user: nat, request: Request, env: Env)

  function RunCalls(s: Store, calls: seq<Call>): Store
    decreases |calls|
  {
    if calls == [] then s
    else RunCalls(Step(s, calls[0].user, calls[0].request, calls[0].env).store, calls[1..])
  }

  /** Every call takes its new ids from above all earlier ones. */
  ghost predicate FreshRun(bound: nat, calls: seq<Call>)
    decreases |calls|
  {
    calls == [] ||
    (calls[0].env.nextId >= bound && FreshRun(calls[0].env.nextId + NewRows(calls[0].request), calls[1..]))
  }

  function BoundAfter(bound: nat, calls: seq<Call>): nat
    decreases |calls|
  {
    if calls == [] then bound else BoundAfter(calls[0].env.nextId + NewRows(calls[0].request), calls[1..])
  }

  function RoughAfterRun(rough: set<nat>, s: Store, calls: seq<Call>): set<nat>
    decreases |calls|
  {
    if calls == [] then rough
    else
      var c := calls[0];
      var o := Step(s, c.user, c.request, c.env);
      RoughAfterRun(RoughAfter(rough, c.request, o.reply, c.env.nextId), o.store, calls[1..])
  }

  /** In every store reachable by any calls of any users, with any amounts and at any rates, every frozen pair is right:
      exactly for entries last written with at most two decimals, else for the amount before its rounding. */
  lemma {:induction false} EveryRunKeepsLedger(s: Store, bound: nat, rough: set<nat>, calls: seq<Call>)
    requires LedgerInv(s, bound, rough) && FreshRun(bound, calls)
    ensures LedgerInv(RunCalls(s, calls), BoundAfter(bound, calls), RoughAfterRun(rough, s, calls))
    decreases |calls|
  {
    if calls == [] {
    } else {
      var c := calls[0];
      var o := Step(s, c.user, c.request, c.env);
      StepKeepsLedger(s, c.user, c.request, c.env, bound, rough);
      EveryRunKeepsLedger(o.store, c.env.nextId + NewRows(c.request),
                          RoughAfter(rough, c.request, o.reply, c.env.nextId), calls[1..]);
    }
  }

  lemma TwoDecimalsStayExact(r: Request, reply: Reply, nextId: nat)
    requires TwoDecimals(r)
    ensures RoughAfter({}, r, reply, nextId) == {}
  {
    if r.CreateSplit? {
      forall i: nat | i < |r.allocations| ensures IsCents(r.allocations[i].amount) {
        assert r.allocations[i] in r.allocations;
      }
    }
  }

  /** So where no amount has more than two decimals, every pair obeys the conversion law exactly. */
  lemma {:induction false} TwoDecimalRunsAreExact(s: Store, bound: nat, calls: seq<Call>)
    requires LedgerInv(s, bound, {}) && FreshRun(bound, calls)
    requires forall c :: c in calls ==> TwoDecimals(c.request)
    ensures LedgerInv(RunCalls(s, calls), BoundAfter(bound, calls), {})
    decreases |calls|
  {
    if calls == [] {
    } else {
      var c := calls[0];
      var o := Step(s, c.user, c.request, c.env);
      assert c in calls;
      StepKeepsLedger(s, c.user, c.request, c.env, bound, {});
      TwoDecimalsStayExact(c.request, o.reply, c.env.nextId);
      TwoDecimalRunsAreExact(o.store, c.env.nextId + NewRows(c.request), calls[1..]);
    }
  }

  lemma EmptyStoreIsConsistent()
    ensures LedgerInv(Store([], []), 0, {})
  {
  }

  // ----- No entry is dated in the future -----

  ghost predicate DatesPast(s: Store, now: int) {
    forall e :: e in s.entries ==> e.entryDate <= StripTime(now)
  }

  lemma LaterDay(a: int, b: int)
    requires a <= b
    ensures StripTime(a) <= StripTime(b)
  {
  }

  lemma StepKeepsDates(s: Store, user: nat, r: Request, env: Env, now: int)
    requires DatesPast(s, now) && now <= env.now
    ensures DatesPast(Step(s, user, r, env).store, env.now)
  {
    LaterDay(now, env.now);
    match r
    case UpdateEntry(_, _, _, _, _) => UpdateKeepsDates(s, user, r, env);
    case _ =>
  }

  lemma UpdateKeepsDates(s: Store, user: nat, r: Request, env: Env)
    requires r.UpdateEntry? && DatesPast(s, env.now)
    ensures DatesPast(UpdateEntryStep(s, user, r, env).store, env.now)
  {
    var t := UpdateEntryStep(s, user, r, env).store;
    forall e | e in t.entries ensures e.entryDate <= StripTime(env.now) {
      var i :| 0 <= i < |t.entries| && t.entries[i] == e;
      assert s.entries[i] in s.entries;
    }
  }

  /** The clock never runs backwards along the run. */
  ghost predicate ClockRun(now: int, calls: seq<Call>)
    decreases |calls|
  {
    calls == [] || (now <= calls[0].env.now && ClockRun(calls[0].env.now, calls[1..]))
  }

  function LastNow(now: int, calls: seq<Call>): int {
    if calls == [] then now else calls[|calls| - 1].env.now
  }

  /** In every reachable ledger no entry lies after the day of the latest call. */
  lemma {:induction false} EveryRunKeepsDates(s: Store, now: int, calls: seq<Call>)
    requires DatesPast(s, now) && ClockRun(now, calls)
    ensures DatesPast(RunCalls(s, calls), LastNow(now, calls))
    decreases |calls|
  {
    if calls != [] {
      var c := calls[0];
      StepKeepsDates(s, c.user, c.request, c.env, now);
      EveryRunKeepsDates(Step(s, c.user, c.request, c.env).store, c.env.now, calls[1..]);
    }
  }

  // ----- Split amounts with more than two decimals, at rates a rate column can hold -----

  /** What a split line stores for a goal in the other currency. */
  function StoredLine(amount: real, from: Currency, rate: Rate): Entry {
    EntryData(0, 0, 0, amount, from, Frozen(ConvertAmount(amount, from, rate), Some(rate)), 0, None, 0)
  }

  /** The stored pair obeys the conversion law at every rate of eight decimals. */
  ghost predicate FrozenAtStorableRates(amount: real, from: Currency) {
    forall rate: Rate :: IsRateScale(rate) ==> FrozenOk(StoredLine(amount, from, rate), from.Other())
  }

  lemma LineIsOkIff(amount: real, from: Currency, rate: Rate)
    ensures FrozenOk(StoredLine(amount, from, rate), from.Other())
            <==> ConvertAmount(amount, from, rate) == ConvertAmount(ToCents(amount), from, rate)
  {
    ToCentsFixesCents(ConvertAmount(amount, from, rate));
  }

  lemma WholeIsOnGrid(k: int)
    ensures IsRateScale(k as real)
  {
    var m := k * 100000000;
    assert m as real == k as real * 100000000.0;
    assert (m as real).Floor == m;
  }

  lemma FarApart(x: real, y: real)
    requires x >= y + 0.01
    ensures ToCents(x) > ToCents(y)
  {
    ToCentsMonotone(y + 0.01, x);
    assert (y + 0.01) * 100.0 == y * 100.0 + 1.0;
  }

  lemma ManyGaps(gap: real) returns (k: int)
    requires gap > 0.0
    ensures k >= 1 && gap * k as real >= 1.0
  {
    QuotientIsPositive(1.0, gap);
    k := (1.0 / gap).Floor + 1;
    MultiplyMonotone(1.0 / gap, k as real, gap);
  }

  lemma ProductsFarApart(small: real, gap: real, rate: real, low: real, high: real)
    requires gap * rate >= 0.01 && low == small * rate && high == (small + gap) * rate
    ensures high >= low + 0.01
  {
    MultiplySum(small, gap, rate);
  }

  lemma RateTellsApart(small: real, large: real, rate: Rate)
    requires (large - small) * rate >= 0.01
    ensures ConvertAmount(small, JPY, rate) != ConvertAmount(large, JPY, rate)
  {
    ProductsFarApart(small, large - small, rate, small * rate, large * rate);
    FarApart(Exchange(large, JPY, rate), Exchange(small, JPY, rate));
  }

  function Rounding(amount: real): real {
    if amount < ToCents(amount) then ToCents(amount) - amount else amount - ToCents(amount)
  }

  /** A yen pair is wrong at every rate at which the rounding of its amount is worth a hundredth: half a sen at 170. */
  lemma YenPairIsWrong(amount: real, rate: Rate)
    requires Rounding(amount) * rate >= 0.01
    ensures !FrozenOk(StoredLine(amount, JPY, rate), VND)
  {
    var c := ToCents(amount);
    if amount < c {
      RateTellsApart(amount, c, rate);
    } else {
      RateTellsApart(c, amount, rate);
    }
    LineIsOkIff(amount, JPY, rate);
  }

  /** For yen the law holds at every storable rate exactly when the amount has at most two decimals: otherwise the
      stored amount is rounded but the frozen one was converted from the unrounded amount. */
  lemma YenFrozenAtStorableRatesIff(amount: real)
    ensures FrozenAtStorableRates(amount, JPY) <==> IsCents(amount)
  {
    ToCentsFixesCents(amount);
    if IsCents(amount) {
      forall rate: Rate | IsRateScale(rate) ensures FrozenOk(StoredLine(amount, JPY, rate), VND) {
        LineIsOkIff(amount, JPY, rate);
      }
    } else {
      var k := ManyGaps(Rounding(amount));
      var rate: Rate := k as real;
      WholeIsOnGrid(k);
      YenPairIsWrong(amount, rate);
    }
  }

  lemma UniqueQuotient(p: real, q: real, k: real)
    requires k != 0.0 && q * k == p
    ensures p / k == q
  {
  }

  /** Dong at a rate of k hundred-millionths, in hundredths of a yen. */
  lemma DongInSmallUnits(amount: real, rate: Rate, k: real)
    requires rate * 100000000.0 == k
    ensures k > 0.0 && amount / rate * 100.0 == amount * 10000000000.0 / k
  {
    DivideMultiply(amount, rate);
    var q := amount / rate;
    assert q * 100.0 * k == q * rate * 10000000000.0 by {
      assert q * 100.0 * (rate * 100000000.0) == q * rate * 10000000000.0;
    }
    UniqueQuotient(amount * 10000000000.0, q * 100.0, k);
  }

  lemma SameYen(amount: real, rounded: real, rate: Rate, k: real)
    requires rate * 100000000.0 == k
    ensures k > 0.0
    ensures ConvertAmount(amount, VND, rate) == ConvertAmount(rounded, VND, rate)
            <==> RoundHalfUp(amount * 10000000000.0 / k) == RoundHalfUp(rounded * 10000000000.0 / k)
  {
    DongInSmallUnits(amount, rate, k);
    DongInSmallUnits(rounded, rate, k);
  }

  lemma DoubledBound(q: real, n: int, k: int, c: int)
    requires k >= 1 && q * k as real == c as real && q < n as real + 0.5
    ensures (c as real + 0.5) <= (n as real + 0.5) * k as real
  {
    MultiplyStrict(q, n as real + 0.5, k as real);
    assert (n as real + 0.5) * k as real * 2.0 == ((2 * n + 1) * k) as real;
    assert 2 * c < (2 * n + 1) * k;
  }

  lemma RoundsTo(x: real, n: int)
    requires x >= 0.0 && n as real - 0.5 <= x < n as real + 0.5
    ensures RoundHalfUp(x) == n
  {
  }

  lemma BelowTheHalf(a: real, d: real, c: real, bound: real)
    requires d > 0.0 && a < c && c <= bound * d
    ensures a / d < bound
  {
    DivideMultiply(a, d);
    var q := a / d;
    if q >= bound {
      MultiplyMonotone(bound, q, d);
    }
  }

  /** No half lies between a whole number and less than a half above it, whatever whole number divides both. */
  lemma NoHalfBetween(a: real, c: int, k: int)
    requires k >= 1 && c >= 0 && c as real <= a < c as real + 0.5
    ensures RoundHalfUp(a / k as real) == RoundHalfUp(c as real / k as real)
  {
    var d := k as real;
    var q := c as real / d;
    var n := RoundHalfUp(q);
    DivideMultiply(c as real, d);
    QuotientNonNegative(c as real, d);
    DoubledBound(q, n, k, c);
    BelowTheHalf(a, d, c as real + 0.5, n as real + 0.5);
    DivideMonotone(c as real, a, d);
    RoundsTo(a / d, n);
  }

  lemma QuotientNonNegative(x: real, k: real)
    requires x >= 0.0 && k > 0.0
    ensures x / k >= 0.0
  {
    DivideMonotone(0.0, x, k);
  }

  lemma HalfTimes(q: real, d: real, x: real)
    requires d > 0.0 && q * d == x
    ensures q >= 0.5 <==> x >= d / 2.0
  {
    if q >= 0.5 {
      MultiplyMonotone(0.5, q, d);
    } else {
      MultiplyStrict(q, 0.5, d);
    }
  }

  lemma HalvesApart(low: real, high: real)
    requires 0.0 <= low < 0.5 <= high
    ensures RoundHalfUp(low) != RoundHalfUp(high)
  {
  }

  /** A whole number k splits a and b when a half of it lies above the one and not above the other. */
  lemma HalfBetween(low: real, high: real, k: int)
    requires k >= 1 && 0.0 <= low < k as real / 2.0 <= high
    ensures RoundHalfUp(low / k as real) != RoundHalfUp(high / k as real)
  {
    var d := k as real;
    var p, q := low / d, high / d;
    DivideMultiply(low, d);
    DivideMultiply(high, d);
    QuotientNonNegative(low, d);
    HalfTimes(p, d, low);
    HalfTimes(q, d, high);
    HalvesApart(p, q);
  }

  lemma SmallRate(k: int) returns (rate: Rate)
    requires k >= 1
    ensures rate * 100000000.0 == k as real && IsRateScale(rate)
  {
    DivideMultiply(k as real, 100000000.0);
    rate := k as real / 100000000.0;
  }

  /** For dong, where a rate divides, the law holds at every storable rate exactly when rounding takes less than half of
      a ten-billionth off the amount and adds nothing. */
  lemma DongFrozenAtStorableRatesIff(amount: real)
    requires amount > 0.0
    ensures FrozenAtStorableRates(amount, VND) <==> 0.0 <= amount - ToCents(amount) < 0.00000000005
  {
    var n := RoundHalfUp(amount * 100.0);
    var a, c := amount * 10000000000.0, n * 100000000;
    assert ToCents(amount) * 10000000000.0 == c as real;
    if 0.0 <= amount - ToCents(amount) < 0.00000000005 {
      forall rate: Rate | IsRateScale(rate) ensures FrozenOk(StoredLine(amount, VND, rate), JPY) {
        var k := (rate * 100000000.0).Floor;
        SameYen(amount, ToCents(amount), rate, k as real);
        NoHalfBetween(a, c, k);
        LineIsOkIff(amount, VND, rate);
      }
    } else {
      var k := if a < c as real then 2 * c else 2 * c + 1;
      var rate := SmallRate(k);
      if a < c as real {
        HalfBetween(a, c as real, k);
      } else {
        HalfBetween(c as real, a, k);
      }
      SameYen(amount, ToCents(amount), rate, k as real);
      LineIsOkIff(amount, VND, rate);
    }
  }
}
