/** What each accepted call stores, when it is refused, and what a later read shows of it. */
module LedgerEffects {
  import opened Decimals
  import opened Conversion
  import opened GoalMath
  import opened Ledger
  import opened LedgerInvariant
  import Pagination
  import Totals
  import S = Sequences

  /** The date lies on a later day. */
  predicate IsLaterDay(date: int, now: int) {
    DaysBetween(now, date) > 0
  }

  lemma LaterDayIff(date: int, now: int)
    ensures InFuture(date, now) <==> IsLaterDay(date, now)
  {
    DaysAddUp(now, date, date);
  }

  lemma FoundOwnGoal(s: Store, user: nat, g: Goal)
    requires S.UniqueBy(GoalKey(), s.goals) && g in s.goals && g.userId == user
    ensures First(S.Filter(OwnGoal(user, g.id), s.goals)) == Some(g)
  {
    FirstOfFilter(OwnGoal(user, g.id), s.goals);
    var found := First(S.Filter(OwnGoal(user, g.id), s.goals));
    assert OwnGoal(user, g.id)(g);
    S.UniqueMember(GoalKey(), s.goals, g, found.value);
  }

  lemma FoundOwnEntry(s: Store, user: nat, e: Entry)
    requires S.UniqueBy(EntryKey(), s.entries) && e in s.entries && e.userId == user
    ensures First(S.Filter(OwnEntry(user, e.id), s.entries)) == Some(e)
  {
    FirstOfFilter(OwnEntry(user, e.id), s.entries);
    var found := First(S.Filter(OwnEntry(user, e.id), s.entries));
    assert OwnEntry(user, e.id)(e);
    S.UniqueMember(EntryKey(), s.entries, e, found.value);
  }

  // ----- Logging an entry -----

  /** The row that an accepted entry becomes. */
  ghost predicate IsLogged(e: Entry, user: nat, r: Request, env: Env)
    requires r.CreateEntry?
  {
    && e.id == env.nextId && e.userId == user && e.goalId == r.goalId && e.createdAt == env.now && e.note == r.note
    && e.currency == r.currency && e.amount == ToCents(r.amount) && e.entryDate == StripTime(r.entryDate)
  }

  /** An entry on a goal of one's own is stored exactly when its day is not later than today, its amount positive and
      any needed rate there, and is refused for the first of these that fails. */
  lemma EntryIsLoggedIff(s: Store, user: nat, r: Request, env: Env, bound: nat, g: Goal)
    requires r.CreateEntry? && Structural(s, bound) && g in s.goals && g.id == r.goalId && g.userId == user
    ensures var o := Step(s, user, r, env);
            && (o.reply.EntryRow? <==>
                  !IsLaterDay(r.entryDate, env.now) && r.amount > 0.0 && (r.currency == g.currency || env.rate.Some?))
            && (o.reply.EntryRow? ==>
                  && o.store == s.(entries := s.entries + [o.reply.entry]) && IsLogged(o.reply.entry, user, r, env)
                  && IsFrozenNow(o.reply.entry, g.currency, r.amount, env))
            && (!o.reply.EntryRow? ==>
                  && o.store == s
                  && o.reply == Failed(if IsLaterDay(r.entryDate, env.now) then EntryDateFuture
                                       else if r.amount <= 0.0 then EntryAmountInvalid else RateUnavailable))
  {
    FoundOwnGoal(s, user, g);
    LaterDayIff(r.entryDate, env.now);
    var frozen := FreezeEntryAmount(r.amount, r.currency, g.currency, env.rate);
    var o := Step(s, user, r, env);
    if o.reply.EntryRow? {
      RowIsFrozenFrom(o.reply.entry, g.currency, r.amount, frozen.value, env.rate);
    }
  }

  /** The pair is frozen from the amount, at the latest rate where the currencies differ. */
  ghost predicate IsFrozenNow(e: Entry, goalCurrency: Currency, amount: real, env: Env) {
    FrozenFrom(e, goalCurrency, amount) && e.fxRateUsed == if e.currency == goalCurrency then None else env.rate
  }

  /** No entry is logged on a goal that is not the user's. */
  lemma ForeignGoalTakesNoEntry(s: Store, user: nat, r: Request, env: Env)
    requires r.CreateEntry? && !Pagination.OwnsGoal(s, user, r.goalId)
    ensures Step(s, user, r, env) == Outcome(s, Failed(GoalNotFound))
  {
    FirstOfFilter(OwnGoal(user, r.goalId), s.goals);
  }

  /** A logged entry raises its goal's saved total by its frozen amount, and no other total of any user. */
  lemma LoggingRaisesTheGoal(s: Store, user: nat, r: Request, env: Env, owner: nat, goalId: nat)
    requires r.CreateEntry? && Step(s, user, r, env).reply.EntryRow?
    ensures var o := Step(s, user, r, env);
            SavedOn(o.store.entries, owner, goalId)
            == SavedOn(s.entries, owner, goalId)
               + if owner == user && goalId == r.goalId then o.reply.entry.amountInGoalCurrency else 0.0
  {
    SavedOneMore(s.entries, Step(s, user, r, env).reply.entry, owner, goalId);
  }

  lemma SavedOneMore(entries: seq<Entry>, e: Entry, user: nat, goalId: nat)
    ensures SavedOn(entries + [e], user, goalId)
         == SavedOn(entries, user, goalId)
            + if e.userId == user && e.goalId == goalId then e.amountInGoalCurrency else 0.0
  {
    S.FilterAppend(EntriesOn(user, goalId), entries, [e]);
    S.SumAppend(FrozenAmount(), S.Filter(EntriesOn(user, goalId), entries), S.Filter(EntriesOn(user, goalId), [e]));
    Totals.FilterSumStep(EntriesOn(user, goalId), [e]);
    assert [e][1..] == [];
  }

  // ----- Splitting -----

  predicate NoGoalTwice(allocations: seq<SplitLine>) {
    forall i, j :: 0 <= i < j < |allocations| ==> allocations[i].goalId != allocations[j].goalId
  }

  lemma SetOfIdsIsFullIff(allocations: seq<SplitLine>)
    ensures |SplitGoalIds(allocations)| == |allocations| <==> NoGoalTwice(allocations)
  {
    if |SplitGoalIds(allocations)| == |allocations| {
      forall i, j | 0 <= i < j < |allocations| ensures allocations[i].goalId != allocations[j].goalId {
        SplitIdsDistinct(allocations, i, j);
      }
    } else if NoGoalTwice(allocations) {
      DistinctIdsCount(allocations);
    }
  }

  lemma {:induction false} DistinctIdsCount(allocations: seq<SplitLine>)
    requires NoGoalTwice(allocations)
    ensures |SplitGoalIds(allocations)| == |allocations|
  {
    if allocations != [] {
      var rest := allocations[1..];
      DistinctIdsCount(rest);
      FirstGoalIsNew(allocations);
    }
  }

  lemma FirstGoalIsNew(allocations: seq<SplitLine>)
    requires NoGoalTwice(allocations) && allocations != []
    ensures SplitGoalIds(allocations) == {allocations[0].goalId} + SplitGoalIds(allocations[1..])
    ensures allocations[0].goalId !in SplitGoalIds(allocations[1..])
  {
    forall a | a in allocations[1..] ensures a.goalId != allocations[0].goalId {
      var k :| 1 <= k < |allocations| && allocations[k] == a;
    }
  }

  ghost predicate OwnsEach(s: Store, user: nat, allocations: seq<SplitLine>) {
    forall a :: a in allocations ==> Pagination.OwnsGoal(s, user, a.goalId)
  }

  lemma OwnsEachIff(s: Store, user: nat, allocations: seq<SplitLine>)
    requires S.UniqueBy(GoalKey(), s.goals) && NoGoalTwice(allocations)
    ensures |S.Filter(OwnGoalIn(user, SplitGoalIds(allocations)), s.goals)| == |allocations|
            <==> OwnsEach(s, user, allocations)
  {
    SetOfIdsIsFullIff(allocations);
    LengthsMatchIffAllOwned(s.goals, user, allocations);
    if OwnsAll(s.goals, user, SplitGoalIds(allocations)) {
      forall a | a in allocations ensures Pagination.OwnsGoal(s, user, a.goalId) {
        assert a.goalId in SplitGoalIds(allocations);
      }
    }
    if OwnsEach(s, user, allocations) {
      forall id | id in SplitGoalIds(allocations) ensures exists g :: g in s.goals && g.id == id && g.userId == user {
        var a :| a in allocations && a.goalId == id;
        assert Pagination.OwnsGoal(s, user, a.goalId);
      }
    }
  }

  /** Some line is not in its goal's currency. */
  ghost predicate CrossesCurrencies(s: Store, allocations: seq<SplitLine>) {
    exists a, g :: a in allocations && g in s.goals && g.id == a.goalId && g.currency != a.currency
  }

  lemma SplitNeedsRateIff(s: Store, user: nat, allocations: seq<SplitLine>, found: seq<Goal>)
    requires S.UniqueBy(GoalKey(), s.goals) && OwnsEach(s, user, allocations)
    requires found == S.Filter(OwnGoalIn(user, SplitGoalIds(allocations)), s.goals)
    ensures SplitNeedsRate(found, allocations) <==> CrossesCurrencies(s, allocations)
  {
    S.FilterKeepsUnique(GoalKey(), OwnGoalIn(user, SplitGoalIds(allocations)), s.goals);
    forall a, g | a in allocations && g in s.goals && g.id == a.goalId
      ensures CurrencyOf(found, a.goalId) == Some(g.currency)
    {
      assert Pagination.OwnsGoal(s, user, a.goalId) && a.goalId in SplitGoalIds(allocations);
      var h :| h in s.goals && h.id == a.goalId && h.userId == user;
      S.UniqueMember(GoalKey(), s.goals, g, h);
      assert OwnGoalIn(user, SplitGoalIds(allocations))(g);
      CurrencyOfGoal(found, g);
    }
    if a :| a in allocations && CurrencyOf(found, a.goalId) != Some(a.currency) {
      assert Pagination.OwnsGoal(s, user, a.goalId);
    }
  }

  /** The first reason to refuse a split, if any. */
  ghost function SplitRefusal(s: Store, user: nat, r: Request, env: Env): Option<Error>
    requires r.CreateSplit?
  {
    if IsLaterDay(r.entryDate, env.now) then Some(EntryDateFuture)
    else if !NoGoalTwice(r.allocations) then Some(SplitDuplicateGoal)
    else if exists a :: a in r.allocations && a.amount <= 0.0 then Some(SplitAmountInvalid)
    else if !OwnsEach(s, user, r.allocations) then Some(GoalNotFound)
    else if CrossesCurrencies(s, r.allocations) && env.rate.None? then Some(RateUnavailable)
    else None
  }

  /** A split is stored exactly when its day is not later than today, no goal occurs twice, every amount is positive,
      every goal is the user's and any needed rate is there; it is refused, writing nothing, for the first that fails.
      Every row stored carries the split's day and note. */
  lemma SplitIsStoredIff(s: Store, user: nat, r: Request, env: Env, bound: nat)
    requires r.CreateSplit? && Structural(s, bound)
    ensures var o, refusal := Step(s, user, r, env), SplitRefusal(s, user, r, env);
            && (o.reply.EntryRows? <==> refusal.None?)
            && (refusal.Some? ==> o == Outcome(s, Failed(refusal.value)))
            && (refusal.None? ==> |o.reply.entries| == |r.allocations|
                                  && o.store == s.(entries := s.entries + o.reply.entries))
            && (refusal.None? ==> forall i :: 0 <= i < |o.reply.entries| ==>
                                    && o.reply.entries[i].entryDate == StripTime(r.entryDate)
                                    && o.reply.entries[i].note == r.note && o.reply.entries[i].createdAt == env.now)
  {
    LaterDayIff(r.entryDate, env.now);
    SetOfIdsIsFullIff(r.allocations);
    if NoGoalTwice(r.allocations) {
      OwnsEachIff(s, user, r.allocations);
      if OwnsEach(s, user, r.allocations) {
        var found := S.Filter(OwnGoalIn(user, SplitGoalIds(r.allocations)), s.goals);
        SplitNeedsRateIff(s, user, r.allocations, found);
      }
    }
  }

  // ----- Removing an entry -----

  /** An entry is removed exactly if it is there and the user's own; then it alone is gone. */
  lemma EntryIsRemovedIff(s: Store, user: nat, id: nat, env: Env)
    ensures var o := Step(s, user, RemoveEntry(id), env);
            && (o.reply == Removed <==> exists e :: e in s.entries && e.id == id && e.userId == user)
            && (o.reply != Removed ==> o == Outcome(s, Failed(EntryNotFound)))
            && (o.reply == Removed ==>
                  && o.store.goals == s.goals
                  && forall e :: e in o.store.entries <==> e in s.entries && !(e.id == id && e.userId == user))
  {
    NoneFiltered(OwnEntry(user, id), s.entries);
    assert forall e :: OwnEntry(user, id)(e) <==> e.id == id && e.userId == user;
    OtherEntriesStay(s.entries, user, id);
  }

  lemma NoneFiltered<T(!new)>(keep: T -> bool, s: seq<T>)
    ensures S.Filter(keep, s) == [] <==> forall x :: x in s ==> !keep(x)
  {
    var kept := S.Filter(keep, s);
    if kept != [] {
      assert kept[0] in kept;
    }
    if x :| x in s && keep(x) {
      assert x in kept;
    }
  }

  lemma OtherEntriesStay(entries: seq<Entry>, user: nat, id: nat)
    ensures forall e :: e in S.Filter(OtherEntry(user, id), entries)
                        <==> e in entries && !(e.id == id && e.userId == user)
  {
  }

  /** Removing an entry lowers its goal's saved total by its frozen amount: logging and removing cancel out. */
  lemma RemovingLowersTheGoal(s: Store, user: nat, env: Env, bound: nat, e: Entry, goalId: nat)
    requires Structural(s, bound) && e in s.entries && e.userId == user
    ensures SavedOn(Step(s, user, RemoveEntry(e.id), env).store.entries, user, goalId)
         == SavedOn(s.entries, user, goalId) - if e.goalId == goalId then e.amountInGoalCurrency else 0.0
  {
    FoundOwnEntry(s, user, e);
    WithoutOne(s.entries, user, e, goalId);
  }

  lemma {:induction false} WithoutOne(entries: seq<Entry>, user: nat, e: Entry, goalId: nat)
    requires S.UniqueBy(EntryKey(), entries) && e in entries && e.userId == user
    ensures SavedOn(S.Filter(OtherEntry(user, e.id), entries), user, goalId)
         == SavedOn(entries, user, goalId) - if e.goalId == goalId then e.amountInGoalCurrency else 0.0
  {
    var rest := entries[1..];
    Totals.FilterSumStep(EntriesOn(user, goalId), entries);
    if entries[0] == e {
      forall x | x in rest ensures OtherEntry(user, e.id)(x) {
        var k :| 0 <= k < |rest| && rest[k] == x;
        assert EntryKey()(entries[0]) != EntryKey()(entries[k + 1]);
      }
      S.FilterAll(OtherEntry(user, e.id), rest);
    } else {
      assert e in rest;
      assert S.UniqueBy(EntryKey(), rest) by {
        forall i, j | 0 <= i < j < |rest| ensures EntryKey()(rest[i]) != EntryKey()(rest[j]) {
          assert EntryKey()(entries[i + 1]) != EntryKey()(entries[j + 1]);
        }
      }
      WithoutOne(rest, user, e, goalId);
      S.UniqueMember(EntryKey(), entries, e, e);
      KeptFirst(entries, user, e, goalId);
    }
  }

  lemma KeptFirst(entries: seq<Entry>, user: nat, e: Entry, goalId: nat)
    requires S.UniqueBy(EntryKey(), entries) && e in entries && entries[0] != e
    ensures SavedOn(S.Filter(OtherEntry(user, e.id), entries), user, goalId)
         == (if EntriesOn(user, goalId)(entries[0]) then entries[0].amountInGoalCurrency else 0.0)
            + SavedOn(S.Filter(OtherEntry(user, e.id), entries[1..]), user, goalId)
  {
    if entries[0].id == e.id {
      S.UniqueMember(EntryKey(), entries, entries[0], e);
    }
    var kept := S.Filter(OtherEntry(user, e.id), entries);
    assert kept[0] == entries[0] && kept[1..] == S.Filter(OtherEntry(user, e.id), entries[1..]);
    Totals.FilterSumStep(EntriesOn(user, goalId), kept);
  }

  // ----- Editing an entry -----

  /** Every field the edit names has its new value, every other field its old one; the frozen pair changes only with the
      amount or the currency. */
  ghost predicate IsEdit(before: Entry, after: Entry, r: Request)
    requires r.UpdateEntry?
  {
    && after.id == before.id && after.userId == before.userId && after.goalId == before.goalId
    && after.createdAt == before.createdAt
    && after.amount == (if r.newAmount.Some? then ToCents(r.newAmount.value) else before.amount)
    && after.currency == (if r.newCurrency.Some? then r.newCurrency.value else before.currency)
    && after.entryDate == (if r.newDate.Some? then StripTime(r.newDate.value) else before.entryDate)
    && after.note == (if r.newNote.Some? then r.newNote else before.note)
    && (r.newAmount.None? && r.newCurrency.None? ==>
          after.amountInGoalCurrency == before.amountInGoalCurrency && after.fxRateUsed == before.fxRateUsed)
  }

  /** An own entry is edited exactly when a new date is not later than today and, for a new amount or currency, any
      needed rate is there. The edit replaces that entry in place and nothing else; a refused one changes nothing. */
  lemma EntryIsEditedIff(s: Store, user: nat, r: Request, env: Env, bound: nat, i: nat, g: Goal)
    requires r.UpdateEntry? && Structural(s, bound) && i < |s.entries|
    requires s.entries[i].id == r.id && s.entries[i].userId == user && g in s.goals && g.id == s.entries[i].goalId
    ensures var o := Step(s, user, r, env);
            var late := r.newDate.Some? && IsLaterDay(r.newDate.value, env.now);
            var currency := if r.newCurrency.Some? then r.newCurrency.value else s.entries[i].currency;
            var noRate := (r.newAmount.Some? || r.newCurrency.Some?) && currency != g.currency && env.rate.None?;
            && (o.reply.EntryRow? <==> !late && !noRate)
            && (o.reply.EntryRow? ==>
                  && IsEdit(s.entries[i], o.reply.entry, r)
                  && o.store == s.(entries := s.entries[i := o.reply.entry])
                  && (Refreezes(r) && (r.newAmount.None? ==> IsCents(s.entries[i].amount)) ==>
                        IsFrozenNow(o.reply.entry, g.currency, r.newAmount.GetOr(s.entries[i].amount), env)))
            && (!o.reply.EntryRow? ==>
                  o == Outcome(s, Failed(if late then EntryDateFuture else RateUnavailable)))
  {
    FoundOwnEntry(s, user, s.entries[i]);
    RefrozenIff(s, s.entries[i], g, r, env);
    EditOutcomeAt(s, user, r, Refrozen(s.goals, s.entries[i], r, env), env.now, bound, i);
    if Step(s, user, r, env).reply.EntryRow? && Refreezes(r) {
      EditIsFrozenNow(s, s.entries[i], g, r, env);
    }
  }

  lemma EditIsFrozenNow(s: Store, e: Entry, g: Goal, r: Request, env: Env)
    requires r.UpdateEntry? && S.UniqueBy(GoalKey(), s.goals) && g in s.goals && g.id == e.goalId
    requires Refreezes(r) && Refrozen(s.goals, e, r, env).Some?
    ensures (r.newAmount.None? ==> IsCents(e.amount)) ==>
              IsFrozenNow(EditedEntry(r, Refrozen(s.goals, e, r, env))(e), g.currency,
                          r.newAmount.GetOr(e.amount), env)
  {
    var frozen := Refrozen(s.goals, e, r, env).value;
    CurrencyOfGoal(s.goals, g);
    ToCentsFixesCents(e.amount);
    if r.newAmount.None? ==> IsCents(e.amount) {
      RowIsFrozenFrom(EditedEntry(r, Some(frozen))(e), g.currency, r.newAmount.GetOr(e.amount), frozen, env.rate);
    }
  }

  lemma EditOutcomeAt(s: Store, user: nat, r: Request, frozen: Option<Frozen>, now: int, bound: nat, i: nat)
    requires r.UpdateEntry? && Structural(s, bound) && i < |s.entries| && (frozen.Some? ==> Refreezes(r))
    requires s.entries[i].id == r.id && s.entries[i].userId == user
    ensures var o, late := EditOutcome(s, user, r, Some(s.entries[i]), frozen, now),
                           r.newDate.Some? && IsLaterDay(r.newDate.value, now);
            && (o.reply.EntryRow? <==> !late && (Refreezes(r) ==> frozen.Some?))
            && (o.reply.EntryRow? ==>
                  && IsEdit(s.entries[i], o.reply.entry, r)
                  && o.store == s.(entries := s.entries[i := o.reply.entry]))
            && (!o.reply.EntryRow? ==>
                  o == Outcome(s, Failed(if late then EntryDateFuture else RateUnavailable)))
  {
    if r.newDate.Some? {
      LaterDayIff(r.newDate.value, now);
    }
    OnlyEntryWithId(s, user, r.id, bound, i);
    UpdatedAt(OwnEntry(user, r.id), EditedEntry(r, frozen), s.entries, i);
  }

  lemma RefrozenIff(s: Store, e: Entry, g: Goal, r: Request, env: Env)
    requires r.UpdateEntry? && S.UniqueBy(GoalKey(), s.goals) && g in s.goals && g.id == e.goalId
    ensures var frozen := Refrozen(s.goals, e, r, env);
            var currency := if r.newCurrency.Some? then r.newCurrency.value else e.currency;
            && (frozen.Some? <==> Refreezes(r) && (currency == g.currency || env.rate.Some?))
            && (Refreezes(r) <==> r.newAmount.Some? || r.newCurrency.Some?)
  {
    CurrencyOfGoal(s.goals, g);
  }

  lemma OnlyEntryWithId(s: Store, user: nat, id: nat, bound: nat, i: nat)
    requires Structural(s, bound) && i < |s.entries| && s.entries[i].id == id
    ensures forall k :: 0 <= k < |s.entries| && k != i ==> !OwnEntry(user, id)(s.entries[k])
  {
    forall k | 0 <= k < |s.entries| && k != i ensures s.entries[k].id != id {
      assert EntryKey()(s.entries[if k < i then k else i]) != EntryKey()(s.entries[if k < i then i else k]);
    }
  }

  /** An update that meets one row only replaces that row. */
  lemma UpdatedAt<T>(p: T -> bool, f: T -> T, s: seq<T>, i: nat)
    requires i < |s| && p(s[i]) && forall k :: 0 <= k < |s| && k != i ==> !p(s[k])
    ensures S.UpdateWhere(p, f, s) == s[i := f(s[i])]
  {
  }

  lemma ForeignEntryIsNotEdited(s: Store, user: nat, r: Request, env: Env)
    requires r.UpdateEntry? && forall e :: e in s.entries && e.userId == user ==> e.id != r.id
    ensures Step(s, user, r, env) == Outcome(s, Failed(EntryNotFound))
  {
    FirstOfFilter(OwnEntry(user, r.id), s.entries);
  }

  // ----- Goals -----

  predicate IsPast(deadline: Option<int>, now: int) {
    deadline.Some? && DaysBetween(now, deadline.value) < 0
  }

  lemma PastIff(deadline: Option<int>, now: int)
    ensures ParseDeadline(deadline, now).None? <==> IsPast(deadline, now)
    ensures !IsPast(deadline, now) ==>
              ParseDeadline(deadline, now) == Some(if deadline.Some? then Some(StripTime(deadline.value)) else None)
  {
    if deadline.Some? {
      DaysAddUp(now, deadline.value, deadline.value);
    }
  }

  /** A goal is stored exactly when its target is positive and its deadline, if any, not past. */
  lemma GoalIsCreatedIff(s: Store, user: nat, r: Request, env: Env)
    requires r.CreateGoal?
    ensures var o := Step(s, user, r, env);
            && (o.reply.GoalRow? <==> r.target > 0.0 && !IsPast(r.deadline, env.now))
            && (o.reply.GoalRow? ==>
                  && o.store == s.(goals := s.goals + [o.reply.goal])
                  && var deadline := if r.deadline.Some? then Some(StripTime(r.deadline.value)) else None;
                     o.reply.goal == Goal(env.nextId, user, r.name, ToCents(r.target), r.currency, deadline, env.now))
            && (!o.reply.GoalRow? ==>
                  o == Outcome(s, Failed(if r.target <= 0.0 then GoalTargetAmountInvalid else GoalDeadlinePast)))
  {
    PastIff(r.deadline, env.now);
  }

  /** A goal of one's own is found with what is saved on it; any other is not found. */
  lemma GoalIsFoundIff(s: Store, user: nat, id: nat, env: Env, bound: nat)
    requires Structural(s, bound)
    ensures var reply := Step(s, user, FindGoal(id), env).reply;
            && (reply == Failed(GoalNotFound) <==> !Pagination.OwnsGoal(s, user, id))
            && (forall g :: g in s.goals && g.id == id && g.userId == user ==>
                  reply == GoalViews([GoalView(g, ComputeProgress(g.targetAmount, SavedOn(s.entries, user, id),
                                                                  g.currency, g.deadline, env.now, env.rate))]))
  {
    FirstOfFilter(OwnGoal(user, id), s.goals);
    forall g | g in s.goals && g.id == id && g.userId == user
      ensures First(S.Filter(OwnGoal(user, id), s.goals)) == Some(g)
    {
      FoundOwnGoal(s, user, g);
    }
  }

  /** A goal just created is found, with nothing saved on it. */
  lemma CreatedGoalIsFound(s: Store, user: nat, r: Request, env: Env, bound: nat)
    requires r.CreateGoal? && Structural(s, bound) && env.nextId >= bound && Step(s, user, r, env).reply.GoalRow?
    ensures var o := Step(s, user, r, env);
            Step(o.store, user, FindGoal(env.nextId), env).reply
            == GoalViews([GoalView(o.reply.goal, ComputeProgress(o.reply.goal.targetAmount, 0.0, r.currency,
                                                                 o.reply.goal.deadline, env.now, env.rate))])
  {
    var o := Step(s, user, r, env);
    GoalIsCreatedIff(s, user, r, env);
    StepKeepsStructure(s, user, r, env, bound);
    GoalIsFoundIff(o.store, user, env.nextId, env, env.nextId + 1);
    assert o.reply.goal in o.store.goals;
    forall e | e in s.entries ensures !EntriesOn(user, env.nextId)(e) {
      assert HasGoal(s.goals, e);
    }
    S.FilterNone(EntriesOn(user, env.nextId), s.entries);
  }

  /** A goal is removed exactly if it is the user's own; then it and every entry on it are gone, and nothing else. */
  lemma GoalIsRemovedIff(s: Store, user: nat, id: nat, env: Env, bound: nat)
    requires Structural(s, bound)
    ensures var o := Step(s, user, RemoveGoal(id), env);
            && (o.reply == Removed <==> Pagination.OwnsGoal(s, user, id))
            && (o.reply != Removed ==> o == Outcome(s, Failed(GoalNotFound)))
            && (o.reply == Removed ==>
                  && (forall g :: g in o.store.goals <==> g in s.goals && g.id != id)
                  && (forall e :: e in o.store.entries <==> e in s.entries && e.goalId != id)
                  && Step(o.store, user, FindGoal(id), env).reply == Failed(GoalNotFound))
  {
    OwnGoalIff(s, user, id);
    if g :| g in s.goals && g.id == id && g.userId == user {
      RemovedRows(s, user, g);
      NoGoalFound(Step(s, user, RemoveGoal(id), env).store, user, id, env);
    }
  }

  lemma OwnGoalIff(s: Store, user: nat, id: nat)
    ensures S.Filter(OwnGoal(user, id), s.goals) == [] <==> !Pagination.OwnsGoal(s, user, id)
  {
    NoneFiltered(OwnGoal(user, id), s.goals);
    assert forall g :: OwnGoal(user, id)(g) <==> g.id == id && g.userId == user;
  }

  lemma NoGoalFound(s: Store, user: nat, id: nat, env: Env)
    requires forall g :: g in s.goals ==> g.id != id
    ensures Step(s, user, FindGoal(id), env).reply == Failed(GoalNotFound)
  {
    FirstOfFilter(OwnGoal(user, id), s.goals);
  }

  lemma OtherGoalIff(s: Store, user: nat, g: Goal)
    requires S.UniqueBy(GoalKey(), s.goals) && g in s.goals && g.userId == user
    ensures forall h :: h in s.goals ==> (OtherGoal(user, g.id)(h) <==> h.id != g.id)
  {
    forall h | h in s.goals && h.id == g.id ensures h == g {
      S.UniqueMember(GoalKey(), s.goals, g, h);
    }
  }

  lemma RemovedRows(s: Store, user: nat, g: Goal)
    requires S.UniqueBy(GoalKey(), s.goals) && g in s.goals && g.userId == user
    ensures forall h :: h in S.Filter(OtherGoal(user, g.id), s.goals) <==> h in s.goals && h.id != g.id
    ensures forall e :: e in S.Filter(NotOnGoal(g.id), s.entries) <==> e in s.entries && e.goalId != g.id
  {
    OtherGoalIff(s, user, g);
  }

  /** An own goal is edited exactly when a new target is positive and a new deadline not past. The edit replaces the
      named fields of that goal and nothing else, and answers with the goal as a later read finds it. */
  lemma GoalIsEditedIff(s: Store, user: nat, r: Request, env: Env, bound: nat, i: nat)
    requires r.UpdateGoal? && Structural(s, bound) && i < |s.goals|
    requires s.goals[i].id == r.id && s.goals[i].userId == user
    ensures var o := Step(s, user, r, env);
            var badTarget := r.newTarget.Some? && r.newTarget.value <= 0.0;
            var badDeadline := r.newDeadline.Some? && IsPast(r.newDeadline.value, env.now);
            && (o.reply.GoalViews? <==> !badTarget && !badDeadline)
            && (!o.reply.GoalViews? ==>
                  o == Outcome(s, Failed(if badTarget then GoalTargetAmountInvalid else GoalDeadlinePast)))
            && (o.reply.GoalViews? ==>
                  && |o.store.goals| == |s.goals| && IsGoalEdit(s.goals[i], o.store.goals[i], r)
                  && o.store == s.(goals := s.goals[i := o.store.goals[i]])
                  && o.reply == Step(o.store, user, FindGoal(r.id), env).reply)
  {
    PastIff(r.newDeadline.GetOr(None), env.now);
    var deadline := ParseDeadline(r.newDeadline.GetOr(None), env.now);
    NoneFiltered(OwnGoal(user, r.id), s.goals);
    assert OwnGoal(user, r.id)(s.goals[i]);
    if deadline.Some? {
      OnlyGoalWithId(s, user, r.id, bound, i);
      UpdatedAt(OwnGoal(user, r.id), EditedGoal(r, deadline.value), s.goals, i);
      EditedGoalIsFound(s, user, r, env, i, s.goals[i := EditedGoal(r, deadline.value)(s.goals[i])]);
    }
  }

  lemma OnlyGoalWithId(s: Store, user: nat, id: nat, bound: nat, i: nat)
    requires Structural(s, bound) && i < |s.goals| && s.goals[i].id == id
    ensures forall k :: 0 <= k < |s.goals| && k != i ==> !OwnGoal(user, id)(s.goals[k])
  {
    forall k | 0 <= k < |s.goals| && k != i ensures s.goals[k].id != id {
      assert GoalKey()(s.goals[if k < i then k else i]) != GoalKey()(s.goals[if k < i then i else k]);
    }
  }

  ghost predicate IsGoalEdit(before: Goal, after: Goal, r: Request)
    requires r.UpdateGoal?
  {
    && after.id == before.id && after.userId == before.userId && after.currency == before.currency
    && after.createdAt == before.createdAt
    && after.name == (if r.newName.Some? then r.newName.value else before.name)
    && after.targetAmount == (if r.newTarget.Some? then ToCents(r.newTarget.value) else before.targetAmount)
    && after.deadline == (if r.newDeadline.None? then before.deadline
                          else if r.newDeadline.value.None? then None
                          else Some(StripTime(r.newDeadline.value.value)))
  }

  lemma EditedGoalIsFound(s: Store, user: nat, r: Request, env: Env, i: nat, after: seq<Goal>)
    requires r.UpdateGoal? && i < |after|
    requires after[i].id == r.id && after[i].userId == user
    ensures FindGoalReply(s.(goals := after), user, r.id, env).GoalViews?
  {
    FirstOfFilter(OwnGoal(user, r.id), after);
    assert OwnGoal(user, r.id)(after[i]);
  }

  ghost predicate Descend(s: seq<Goal>) {
    forall i, j :: 0 <= i < j < |s| ==> s[i].createdAt >= s[j].createdAt
  }

  lemma {:induction false} GoalsDescend(s: seq<Goal>)
    ensures Descend(GoalsNewestFirst(s))
  {
    if s != [] {
      GoalsDescend(s[1..]);
      InsertDescends(s[0], GoalsNewestFirst(s[1..]));
    }
  }

  lemma {:induction false} InsertDescends(g: Goal, s: seq<Goal>)
    requires Descend(s)
    ensures Descend(InsertGoal(g, s)) && forall x :: x in InsertGoal(g, s) ==> x == g || x in s
  {
    if s == [] {
      assert InsertGoal(g, s) == [g];
    } else if g.createdAt < s[0].createdAt {
      InsertDescends(g, s[1..]);
      var t := InsertGoal(g, s[1..]);
      forall k | 0 <= k < |t| ensures s[0].createdAt >= t[k].createdAt {
        assert t[k] in t;
      }
    }
  }

  lemma ListedGoalsAreOwn(s: Store, user: nat, g: Goal)
    ensures g in GoalsNewestFirst(S.Filter(GoalsOf(user), s.goals)) <==> g in s.goals && g.userId == user
  {
    var own := S.Filter(GoalsOf(user), s.goals);
    Totals.GoalsNewestFirstReorders(own);
    assert g in own <==> g in s.goals && GoalsOf(user)(g);
    assert g in own <==> g in multiset(own);
    assert g in GoalsNewestFirst(own) <==> g in multiset(GoalsNewestFirst(own));
  }

  function GoalOf(): GoalView -> Goal { (v: GoalView) => v.goal }

  /** The list view shows exactly the user's goals, latest created first. */
  lemma AllGoalsAreListed(s: Store, user: nat, env: Env)
    ensures Step(s, user, FindAllGoals, env).reply.GoalViews?
    ensures var listed := S.Map(GoalOf(), Step(s, user, FindAllGoals, env).reply.views);
            Descend(listed) && forall g :: g in listed <==> g in s.goals && g.userId == user
  {
    var goals := GoalsNewestFirst(S.Filter(GoalsOf(user), s.goals));
    assert S.Map(GoalOf(), FindAllViews(s, user, env)) == goals;
    GoalsDescend(S.Filter(GoalsOf(user), s.goals));
    forall g ensures g in goals <==> g in s.goals && g.userId == user {
      ListedGoalsAreOwn(s, user, g);
    }
  }
}
