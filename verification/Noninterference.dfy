/** Isolation of users: a user's calls neither change nor depend on anything of another user. */
module Noninterference {
  import opened Decimals
  import opened Ledger
  import opened LedgerInvariant
  import S = Sequences

  /** What a user owns. */
  function Projection(s: Store, user: nat): Store {
    Store(S.Filter(GoalsOf(user), s.goals), S.Filter(EntriesOf(user), s.entries))
  }

  // ----- Other users' rows are untouched -----

  lemma UntouchedAppend<T(!new)>(keep: T -> bool, s: seq<T>, rows: seq<T>)
    requires forall x :: x in rows ==> !keep(x)
    ensures S.Filter(keep, s + rows) == S.Filter(keep, s)
  {
    S.FilterAppend(keep, s, rows);
    S.FilterNone(keep, rows);
  }

  lemma UntouchedUpdate<T(!new)>(keep: T -> bool, p: T -> bool, f: T -> T, s: seq<T>)
    requires forall x :: x in s && p(x) ==> !keep(x) && !keep(f(x))
    ensures S.Filter(keep, S.UpdateWhere(p, f, s)) == S.Filter(keep, s)
  {
    S.FilterUpdate(keep, p, f, s);
    S.UpdateNone(p, f, S.Filter(keep, s));
  }

  lemma UntouchedDelete<T(!new)>(keep: T -> bool, stay: T -> bool, s: seq<T>)
    requires forall x :: x in s && keep(x) ==> stay(x)
    ensures S.Filter(keep, S.Filter(stay, s)) == S.Filter(keep, s)
  {
    S.FilterTwice(stay, keep, keep, s);
  }

  /** No call by one user changes what another user owns. */
  lemma OthersAreUntouched(s: Store, user: nat, r: Request, env: Env, bound: nat, other: nat)
    requires Structural(s, bound) && other != user
    ensures Projection(Step(s, user, r, env).store, other) == Projection(s, other)
  {
    match r
    case CreateGoal(_, _, _, _) => CreateGoalLeavesOthers(s, user, r, env, other);
    case FindAllGoals =>
    case FindGoal(_) =>
    case UpdateGoal(_, _, _, _) =>
      var deadline := ParseDeadline(r.newDeadline.GetOr(None), env.now);
      if deadline.Some? {
        UntouchedUpdate(GoalsOf(other), OwnGoal(user, r.id), EditedGoal(r, deadline.value), s.goals);
      }
    case RemoveGoal(_) => RemoveGoalLeavesOthers(s, user, r, bound, other);
    case CreateEntry(_, _, _, _, _) => CreateEntryLeavesOthers(s, user, r, env, other);
    case CreateSplit(_, _, _) => CreateSplitLeavesOthers(s, user, r, env, other);
    case ListEntries(_, _, _) =>
    case UpdateEntry(_, _, _, _, _) => UpdateEntryLeavesOthers(s, user, r, env, other);
    case RemoveEntry(_) => UntouchedDelete(EntriesOf(other), OtherEntry(user, r.id), s.entries);
  }

  lemma CreateGoalLeavesOthers(s: Store, user: nat, r: Request, env: Env, other: nat)
    requires r.CreateGoal? && other != user
    ensures Projection(CreateGoalStep(s, user, r, env).store, other) == Projection(s, other)
  {
    var o := CreateGoalStep(s, user, r, env);
    if o.reply.GoalRow? {
      UntouchedAppend(GoalsOf(other), s.goals, [o.reply.goal]);
    }
  }

  lemma RemoveGoalLeavesOthers(s: Store, user: nat, r: Request, bound: nat, other: nat)
    requires r.RemoveGoal? && Structural(s, bound) && other != user
    ensures Projection(RemoveGoalStep(s, user, r).store, other) == Projection(s, other)
  {
    UntouchedDelete(GoalsOf(other), OtherGoal(user, r.id), s.goals);
    FirstOfFilter(OwnGoal(user, r.id), s.goals);
    if S.Filter(OwnGoal(user, r.id), s.goals) != [] {
      UntouchedDelete(EntriesOf(other), NotOnGoal(r.id), s.entries);
    }
  }

  lemma CreateEntryLeavesOthers(s: Store, user: nat, r: Request, env: Env, other: nat)
    requires r.CreateEntry? && other != user
    ensures Projection(CreateEntryStep(s, user, r, env).store, other) == Projection(s, other)
  {
    var o := CreateEntryStep(s, user, r, env);
    if o.reply.EntryRow? {
      UntouchedAppend(EntriesOf(other), s.entries, [o.reply.entry]);
    }
  }

  lemma CreateSplitLeavesOthers(s: Store, user: nat, r: Request, env: Env, other: nat)
    requires r.CreateSplit? && other != user
    ensures Projection(CreateSplitStep(s, user, r, env).store, other) == Projection(s, other)
  {
    var o := CreateSplitStep(s, user, r, env);
    if o.reply.EntryRows? {
      UntouchedAppend(EntriesOf(other), s.entries, o.reply.entries);
    }
  }

  lemma UpdateEntryLeavesOthers(s: Store, user: nat, r: Request, env: Env, other: nat)
    requires r.UpdateEntry? && other != user
    ensures Projection(UpdateEntryStep(s, user, r, env).store, other) == Projection(s, other)
  {
    var found := First(S.Filter(OwnEntry(user, r.id), s.entries));
    if found.Some? {
      var edited := EditedEntry(r, Refrozen(s.goals, found.value, r, env));
      UntouchedUpdate(EntriesOf(other), OwnEntry(user, r.id), edited, s.entries);
    }
  }

  // ----- A call sees only its user's rows -----

  /** A query that only asks for the user's own rows gives the same answer on the projection. */
  lemma OwnQuery<T(!new)>(keep: T -> bool, q: T -> bool, s: seq<T>)
    requires forall x :: q(x) ==> keep(x)
    ensures S.Filter(q, S.Filter(keep, s)) == S.Filter(q, s)
  {
    S.FilterTwice(keep, q, q, s);
  }

  lemma OwnGoalQueries(s: Store, user: nat)
    ensures forall id :: S.Filter(OwnGoal(user, id), Projection(s, user).goals) == S.Filter(OwnGoal(user, id), s.goals)
    ensures forall ids ::
              S.Filter(OwnGoalIn(user, ids), Projection(s, user).goals) == S.Filter(OwnGoalIn(user, ids), s.goals)
    ensures S.Filter(GoalsOf(user), Projection(s, user).goals) == S.Filter(GoalsOf(user), s.goals)
  {
    forall id ensures S.Filter(OwnGoal(user, id), Projection(s, user).goals) == S.Filter(OwnGoal(user, id), s.goals) {
      OwnQuery(GoalsOf(user), OwnGoal(user, id), s.goals);
    }
    forall ids
      ensures S.Filter(OwnGoalIn(user, ids), Projection(s, user).goals) == S.Filter(OwnGoalIn(user, ids), s.goals)
    {
      OwnQuery(GoalsOf(user), OwnGoalIn(user, ids), s.goals);
    }
    OwnQuery(GoalsOf(user), GoalsOf(user), s.goals);
  }

  lemma OwnEntryQueries(s: Store, user: nat)
    ensures forall id ::
              S.Filter(OwnEntry(user, id), Projection(s, user).entries) == S.Filter(OwnEntry(user, id), s.entries)
    ensures forall g ::
              S.Filter(EntriesOn(user, g), Projection(s, user).entries) == S.Filter(EntriesOn(user, g), s.entries)
  {
    forall id
      ensures S.Filter(OwnEntry(user, id), Projection(s, user).entries) == S.Filter(OwnEntry(user, id), s.entries)
    {
      OwnQuery(EntriesOf(user), OwnEntry(user, id), s.entries);
    }
    forall g
      ensures S.Filter(EntriesOn(user, g), Projection(s, user).entries) == S.Filter(EntriesOn(user, g), s.entries)
    {
      OwnQuery(EntriesOf(user), EntriesOn(user, g), s.entries);
    }
  }

  lemma {:induction false} OwnGroupedSums(entries: seq<Entry>, user: nat)
    ensures GroupedSums(S.Filter(EntriesOf(user), entries), user) == GroupedSums(entries, user)
  {
    if entries == [] {
    } else {
      OwnGroupedSums(entries[1..], user);
      if entries[0].userId == user {
        var own := S.Filter(EntriesOf(user), entries);
        assert own[0] == entries[0] && own[1..] == S.Filter(EntriesOf(user), entries[1..]);
      }
    }
  }

  /** The goal an own entry refers to is the user's own, so its currency is visible in the projection. */
  lemma OwnCurrency(s: Store, user: nat, bound: nat, e: Entry)
    requires Structural(s, bound) && e in s.entries && e.userId == user
    ensures CurrencyOf(Projection(s, user).goals, e.goalId) == CurrencyOf(s.goals, e.goalId)
  {
    assert HasGoal(s.goals, e);
    var g :| g in s.goals && g.id == e.goalId;
    CurrencyOfGoal(s.goals, g);
    S.FilterKeepsUnique(GoalKey(), GoalsOf(user), s.goals);
    assert g in Projection(s, user).goals;
    CurrencyOfGoal(Projection(s, user).goals, g);
  }

  /** The call commutes with projecting: same reply, and the same effect on what the user owns. */
  ghost predicate SeesOnlyOwn(s: Store, user: nat, r: Request, env: Env) {
    && Step(Projection(s, user), user, r, env).reply == Step(s, user, r, env).reply
    && Step(Projection(s, user), user, r, env).store == Projection(Step(s, user, r, env).store, user)
  }

  lemma OwnAppend<T(!new)>(keep: T -> bool, s: seq<T>, rows: seq<T>)
    requires forall x :: x in rows ==> keep(x)
    ensures S.Filter(keep, s + rows) == S.Filter(keep, s) + rows
  {
    S.FilterAppend(keep, s, rows);
    S.FilterAll(keep, rows);
  }

  lemma CallSeesOnlyOwnRows(s: Store, user: nat, r: Request, env: Env, bound: nat)
    requires Structural(s, bound)
    ensures SeesOnlyOwn(s, user, r, env)
  {
    match r
    case CreateGoal(_, _, _, _) =>
      var o := CreateGoalStep(s, user, r, env);
      if o.reply.GoalRow? {
        OwnAppend(GoalsOf(user), s.goals, [o.reply.goal]);
      }
    case FindAllGoals =>
      OwnGoalQueries(s, user);
      OwnGroupedSums(s.entries, user);
    case FindGoal(_) =>
      OwnGoalQueries(s, user);
      OwnEntryQueries(s, user);
    case UpdateGoal(_, _, _, _) => UpdateGoalSeesOnlyOwn(s, user, r, env);
    case RemoveGoal(_) => RemoveGoalSeesOnlyOwn(s, user, r, env);
    case CreateEntry(_, _, _, _, _) => CreateEntrySeesOnlyOwn(s, user, r, env);
    case CreateSplit(_, _, _) => CreateSplitSeesOnlyOwn(s, user, r, env);
    case ListEntries(_, _, _) =>
      OwnGoalQueries(s, user);
      OwnEntryQueries(s, user);
    case UpdateEntry(_, _, _, _, _) => UpdateEntrySeesOnlyOwn(s, user, r, env, bound);
    case RemoveEntry(_) =>
      OwnEntryQueries(s, user);
      S.FiltersCommute(EntriesOf(user), OtherEntry(user, r.id), s.entries);
  }

  lemma CreateEntrySeesOnlyOwn(s: Store, user: nat, r: Request, env: Env)
    requires r.CreateEntry?
    ensures SeesOnlyOwn(s, user, r, env)
  {
    OwnQuery(GoalsOf(user), OwnGoal(user, r.goalId), s.goals);
    var o := CreateEntryStep(s, user, r, env);
    if o.reply.EntryRow? {
      OwnAppend(EntriesOf(user), s.entries, [o.reply.entry]);
    }
  }

  lemma CreateSplitSeesOnlyOwn(s: Store, user: nat, r: Request, env: Env)
    requires r.CreateSplit?
    ensures SeesOnlyOwn(s, user, r, env)
  {
    OwnQuery(GoalsOf(user), OwnGoalIn(user, SplitGoalIds(r.allocations)), s.goals);
    var o := CreateSplitStep(s, user, r, env);
    if o.reply.EntryRows? {
      OwnAppend(EntriesOf(user), s.entries, o.reply.entries);
    }
  }

  lemma UpdateGoalSeesOnlyOwn(s: Store, user: nat, r: Request, env: Env)
    requires r.UpdateGoal?
    ensures SeesOnlyOwn(s, user, r, env)
  {
    OwnGoalQueries(s, user);
    var deadline := ParseDeadline(r.newDeadline.GetOr(None), env.now);
    if deadline.Some? {
      S.FilterUpdate(GoalsOf(user), OwnGoal(user, r.id), EditedGoal(r, deadline.value), s.goals);
    }
    var t := UpdateGoalStep(s, user, r, env).store;
    OwnGoalQueries(t, user);
    OwnEntryQueries(t, user);
  }

  lemma RemoveGoalSeesOnlyOwn(s: Store, user: nat, r: Request, env: Env)
    requires r.RemoveGoal?
    ensures SeesOnlyOwn(s, user, r, env)
  {
    OwnGoalQueries(s, user);
    S.FiltersCommute(GoalsOf(user), OtherGoal(user, r.id), s.goals);
    S.FiltersCommute(EntriesOf(user), NotOnGoal(r.id), s.entries);
  }

  /** The entry to update and its goal's currency are the same in the projection. */
  lemma SameEntryFound(s: Store, user: nat, id: nat, bound: nat)
    requires Structural(s, bound)
    ensures var found, own := First(S.Filter(OwnEntry(user, id), s.entries)), Projection(s, user);
            && First(S.Filter(OwnEntry(user, id), own.entries)) == found
            && (found.Some? ==> CurrencyOf(own.goals, found.value.goalId) == CurrencyOf(s.goals, found.value.goalId))
  {
    OwnQuery(EntriesOf(user), OwnEntry(user, id), s.entries);
    FirstOfFilter(OwnEntry(user, id), s.entries);
    var found := First(S.Filter(OwnEntry(user, id), s.entries));
    if found.Some? {
      OwnCurrency(s, user, bound, found.value);
    }
  }

  lemma UpdateEntrySeesOnlyOwn(s: Store, user: nat, r: Request, env: Env, bound: nat)
    requires r.UpdateEntry? && Structural(s, bound)
    ensures SeesOnlyOwn(s, user, r, env)
  {
    var found, own := First(S.Filter(OwnEntry(user, r.id), s.entries)), Projection(s, user);
    var frozen := if found.None? then None else Refrozen(s.goals, found.value, r, env);
    SameEntryFound(s, user, r.id, bound);
    EditSeesOnlyOwn(s, user, r, found, frozen, env.now);
    UpdateIsEdit(s, user, r, env, found, frozen);
    UpdateIsEdit(own, user, r, env, found, frozen);
  }

  lemma UpdateIsEdit(s: Store, user: nat, r: Request, env: Env, found: Option<Entry>, frozen: Option<Frozen>)
    requires r.UpdateEntry? && found == First(S.Filter(OwnEntry(user, r.id), s.entries))
    requires frozen == if found.None? then None else Refrozen(s.goals, found.value, r, env)
    ensures Step(s, user, r, env) == EditOutcome(s, user, r, found, frozen, env.now)
  {
  }

  lemma EditSeesOnlyOwn(s: Store, user: nat, r: Request, found: Option<Entry>, frozen: Option<Frozen>, now: int)
    requires r.UpdateEntry?
    ensures var o := EditOutcome(s, user, r, found, frozen, now);
            var own := EditOutcome(Projection(s, user), user, r, found, frozen, now);
            own.reply == o.reply && own.store == Projection(o.store, user)
  {
    S.FilterUpdate(EntriesOf(user), OwnEntry(user, r.id), EditedEntry(r, frozen), s.entries);
  }

  // ----- Whole runs -----

  /** The replies one user gets over a run. */
  function RepliesTo(user: nat, s: Store, calls: seq<Call>): seq<Reply>
    decreases |calls|
  {
    if calls == [] then []
    else
      var c := calls[0];
      var o := Step(s, c.user, c.request, c.env);
      (if c.user == user then [o.reply] else []) + RepliesTo(user, o.store, calls[1..])
  }

  /** The run without the calls of the erased users. */
  function Erase(erased: set<nat>, calls: seq<Call>): seq<Call> {
    S.Filter((c: Call) => c.user !in erased, calls)
  }

  lemma {:induction false} LowerBoundIsFresh(low: nat, bound: nat, calls: seq<Call>)
    requires FreshRun(bound, calls) && low <= bound
    ensures FreshRun(low, calls)
  {
  }

  lemma {:induction false} ErasedRunIsFresh(erased: set<nat>, bound: nat, calls: seq<Call>)
    requires FreshRun(bound, calls)
    ensures FreshRun(bound, Erase(erased, calls))
    decreases |calls|
  {
    if calls == [] {
    } else {
      var c := calls[0];
      var next := c.env.nextId + NewRows(c.request);
      ErasedRunIsFresh(erased, next, calls[1..]);
      if c.user in erased {
        LowerBoundIsFresh(bound, next, Erase(erased, calls[1..]));
      } else {
        assert Erase(erased, calls)[1..] == Erase(erased, calls[1..]);
      }
    }
  }

  /** Over any run from any consistent store, a user's replies are the same when the calls of any
      other users are erased, even if the two runs start from stores that differ in everything else. */
  lemma {:induction false} RepliesSurviveErasure(user: nat, erased: set<nat>, s: Store, t: Store, bound: nat,
                                                 calls: seq<Call>)
    requires user !in erased && Projection(s, user) == Projection(t, user)
    requires Structural(s, bound) && Structural(t, bound) && FreshRun(bound, calls)
    ensures RepliesTo(user, s, calls) == RepliesTo(user, t, Erase(erased, calls))
    decreases |calls|
  {
    if calls == [] {
    } else {
      var c := calls[0];
      var s', next := Step(s, c.user, c.request, c.env).store, c.env.nextId + NewRows(c.request);
      StepKeepsStructure(s, c.user, c.request, c.env, bound);
      if c.user in erased {
        OthersAreUntouched(s, c.user, c.request, c.env, bound, user);
        RaiseBound(t, bound, next);
        RepliesSurviveErasure(user, erased, s', t, next, calls[1..]);
      } else {
        var t' := Step(t, c.user, c.request, c.env).store;
        StepKeepsStructure(t, c.user, c.request, c.env, bound);
        SameStepSameProjection(user, s, t, c, bound);
        RepliesSurviveErasure(user, erased, s', t', next, calls[1..]);
        assert Erase(erased, calls)[1..] == Erase(erased, calls[1..]);
      }
    }
  }

  lemma RaiseBound(s: Store, bound: nat, higher: nat)
    requires Structural(s, bound) && bound <= higher
    ensures Structural(s, higher)
  {
  }

  lemma SameStepSameProjection(user: nat, s: Store, t: Store, c: Call, bound: nat)
    requires Projection(s, user) == Projection(t, user) && Structural(s, bound) && Structural(t, bound)
    ensures var o, p := Step(s, c.user, c.request, c.env), Step(t, c.user, c.request, c.env);
            Projection(o.store, user) == Projection(p.store, user) && (c.user == user ==> o.reply == p.reply)
  {
    if c.user == user {
      CallSeesOnlyOwnRows(s, user, c.request, c.env, bound);
      CallSeesOnlyOwnRows(t, user, c.request, c.env, bound);
    } else {
      OthersAreUntouched(s, c.user, c.request, c.env, bound, user);
      OthersAreUntouched(t, c.user, c.request, c.env, bound, user);
    }
  }
}
