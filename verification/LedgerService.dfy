/** The services over the goal and entry tables: each method is one step of the ledger, run in place. */
module LedgerService {
  import opened Decimals
  import opened Conversion
  import opened Ledger
  import S = Sequences

  class LedgerTables {
    var goals: seq<Goal>
    var entries: seq<Entry>

    function Rows(): Store
      reads this
    {
      Store(goals, entries)
    }

    constructor ()
      ensures Rows() == Store([], [])
    {
      goals, entries := [], [];
    }

    method CreateGoal(user: nat, r: Request, env: Env) returns (reply: Reply)
      requires r.CreateGoal?
      modifies this`goals
      ensures Outcome(Rows(), reply) == Step(old(Rows()), user, r, env)
    {
      if r.target <= 0.0 {
        return Failed(GoalTargetAmountInvalid);
      }
      var deadline := ParseDeadline(r.deadline, env.now);
      if deadline.None? {
        return Failed(GoalDeadlinePast);
      }
      var row := Goal(env.nextId, user, r.name, ToCents(r.target), r.currency, deadline.value, env.now);
      goals := goals + [row];
      reply := GoalRow(row);
    }

    method UpdateGoal(user: nat, r: Request, env: Env) returns (reply: Reply)
      requires r.UpdateGoal?
      modifies this`goals
      ensures Outcome(Rows(), reply) == Step(old(Rows()), user, r, env)
    {
      if r.newTarget.Some? && r.newTarget.value <= 0.0 {
        return Failed(GoalTargetAmountInvalid);
      }
      var deadline := ParseDeadline(r.newDeadline.GetOr(None), env.now);
      if deadline.None? {
        return Failed(GoalDeadlinePast);
      }
      if S.Filter(OwnGoal(user, r.id), goals) == [] {
        return Failed(GoalNotFound);
      }
      goals := S.UpdateWhere(OwnGoal(user, r.id), EditedGoal(r, deadline.value), goals);
      reply := FindGoalReply(Rows(), user, r.id, env);
    }

    method RemoveGoal(user: nat, r: Request, env: Env) returns (reply: Reply)
      requires r.RemoveGoal?
      modifies this
      ensures Outcome(Rows(), reply) == Step(old(Rows()), user, r, env)
    {
      var kept := S.Filter(OtherGoal(user, r.id), goals);
      if S.Filter(OwnGoal(user, r.id), goals) == [] {
        return Failed(GoalNotFound);
      }
      goals := kept;
      entries := S.Filter(NotOnGoal(r.id), entries);
      reply := Removed;
    }

    method CreateEntry(user: nat, r: Request, env: Env) returns (reply: Reply)
      requires r.CreateEntry?
      modifies this`entries
      ensures Outcome(Rows(), reply) == Step(old(Rows()), user, r, env)
    {
      var goal := First(S.Filter(OwnGoal(user, r.goalId), goals));
      if goal.None? {
        return Failed(GoalNotFound);
      }
      if InFuture(r.entryDate, env.now) {
        return Failed(EntryDateFuture);
      }
      if r.amount <= 0.0 {
        return Failed(EntryAmountInvalid);
      }
      var frozen := FreezeEntryAmount(r.amount, r.currency, goal.value.currency, env.rate);
      if frozen.None? {
        return Failed(RateUnavailable);
      }
      var row := EntryData(env.nextId, user, r.goalId, r.amount, r.currency, frozen.value,
                           r.entryDate, r.note, env.now);
      entries := entries + [row];
      reply := EntryRow(row);
    }

    /** All checks come before the first write; the rows then land together. */
    method CreateSplit(user: nat, r: Request, env: Env) returns (reply: Reply)
      requires r.CreateSplit?
      modifies this`entries
      ensures Outcome(Rows(), reply) == Step(old(Rows()), user, r, env)
    {
      if InFuture(r.entryDate, env.now) {
        return Failed(EntryDateFuture);
      }
      var ids := SplitGoalIds(r.allocations);
      if |ids| != |r.allocations| {
        return Failed(SplitDuplicateGoal);
      }
      if exists a :: a in r.allocations && a.amount <= 0.0 {
        return Failed(SplitAmountInvalid);
      }
      var found := S.Filter(OwnGoalIn(user, ids), goals);
      if |found| != |r.allocations| {
        return Failed(GoalNotFound);
      }
      if SplitNeedsRate(found, r.allocations) && env.rate.None? {
        return Failed(RateUnavailable);
      }
      var datas := SplitDatas(user, found, r.allocations, r.entryDate, r.note, env);
      entries := entries + datas;
      reply := EntryRows(datas);
    }

    static method SplitDatas(user: nat, found: seq<Goal>, allocations: seq<SplitLine>, entryDate: int,
                             note: Option<string>, env: Env) returns (datas: seq<Entry>)
      ensures datas == SplitRows(user, found, allocations, entryDate, note, env)
    {
      datas := [];
      for i := 0 to |allocations|
        invariant datas == SplitRows(user, found, allocations[..i], entryDate, note, env)
      {
        SplitRowsNext(user, found, allocations, entryDate, note, env, i);
        datas := datas + [SplitRow(env.nextId + i, user, found, allocations[i], entryDate, note, env)];
      }
      assert allocations[..|allocations|] == allocations;
    }

    method ListForGoal(user: nat, r: Request, env: Env) returns (reply: Reply)
      requires r.ListEntries?
      ensures Outcome(Rows(), reply) == Step(Rows(), user, r, env)
    {
      if S.Filter(OwnGoal(user, r.goalId), goals) == [] {
        return Failed(GoalNotFound);
      }
      var pageSize := if r.limit < DEFAULT_PAGE_SIZE then r.limit else DEFAULT_PAGE_SIZE;
      var after := AfterCursor(NewestFirst(S.Filter(EntriesOn(user, r.goalId), entries)), r.cursor);
      var rows := if |after| > pageSize + 1 then after[..pageSize + 1] else after;
      var hasMore := |rows| > pageSize;
      var page := if hasMore then rows[..pageSize] else rows;
      if !hasMore {
        return EntryPage(page, None);
      }
      if page == [] {
        return Failed(InternalError);
      }
      reply := EntryPage(page, Some(page[|page| - 1].id));
    }

    method UpdateEntry(user: nat, r: Request, env: Env) returns (reply: Reply)
      requires r.UpdateEntry?
      modifies this`entries
      ensures Outcome(Rows(), reply) == Step(old(Rows()), user, r, env)
    {
      var found := First(S.Filter(OwnEntry(user, r.id), entries));
      if found.None? {
        return Failed(EntryNotFound);
      }
      if r.newDate.Some? && InFuture(r.newDate.value, env.now) {
        return Failed(EntryDateFuture);
      }
      var entry := found.value;
      var frozen: Option<Frozen> := None;
      if r.newAmount.Some? || r.newCurrency.Some? {
        frozen := FreezeEntryAmount(r.newAmount.GetOr(entry.amount), r.newCurrency.GetOr(entry.currency),
                                    CurrencyOf(goals, entry.goalId).GetOr(entry.currency), env.rate);
        if frozen.None? {
          return Failed(RateUnavailable);
        }
      }
      entries := S.UpdateWhere(OwnEntry(user, r.id), EditedEntry(r, frozen), entries);
      reply := EntryRow(EditedEntry(r, frozen)(entry));
    }

    method RemoveEntry(user: nat, r: Request, env: Env) returns (reply: Reply)
      requires r.RemoveEntry?
      modifies this`entries
      ensures Outcome(Rows(), reply) == Step(old(Rows()), user, r, env)
    {
      if S.Filter(OwnEntry(user, r.id), entries) == [] {
        return Failed(EntryNotFound);
      }
      entries := S.Filter(OtherEntry(user, r.id), entries);
      reply := Removed;
    }
  }
}
