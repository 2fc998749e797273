/** The savings ledger: goals and entries of many users, and every goal and entry operation
    as a step from one store to the next. Calls are serial; ids are taken from a growing counter. */
module Ledger {
  import opened Decimals
  import opened Conversion
  import opened GoalMath
  import S = Sequences

  const DEFAULT_PAGE_SIZE := 50

  datatype Goal = Goal(
    id: nat, userId: nat, name: string, targetAmount: real, currency: Currency, deadline: Option<int>, createdAt: int)

  datatype Entry = Entry(
    id: nat,
    userId: nat,
    goalId: nat,
    amount: real,
    currency: Currency,
    amountInGoalCurrency: real,
    fxRateUsed: Option<Rate>,
    entryDate: int,
    note: Option<string>,
    createdAt: int)

  datatype Store = Store(goals: seq<Goal>, entries: seq<Entry>)

  datatype Error =
    | GoalNotFound | EntryNotFound | EntryDateFuture | EntryAmountInvalid | SplitDuplicateGoal | SplitAmountInvalid
    | RateUnavailable | GoalTargetAmountInvalid | GoalDeadlinePast | InternalError

  datatype SplitLine = SplitLine(goalId: nat, amount: real, currency: Currency)

  datatype Request =
    | CreateGoal(name: string, target: real, currency: Currency, deadline: Option<int>)
    | FindAllGoals
    | FindGoal(id: nat)
    | UpdateGoal(id: nat, newName: Option<string>, newTarget: Option<real>, newDeadline: Option<Option<int>>)
    | RemoveGoal(id: nat)
    | CreateEntry(goalId: nat, amount: real, currency: Currency, entryDate: int, note: Option<string>)
    | CreateSplit(entryDate: int, note: Option<string>, allocations: seq<SplitLine>)
    | ListEntries(goalId: nat, limit: nat, cursor: Option<nat>)
    | UpdateEntry(id: nat, newAmount: Option<real>, newCurrency: Option<Currency>, newDate: Option<int>,
                  newNote: Option<string>)
    | RemoveEntry(id: nat)

  datatype GoalView = GoalView(goal: Goal, progress: Progress)

  datatype Reply =
    | Failed(error: Error)
    | GoalRow(goal: Goal)
    | GoalViews(views: seq<GoalView>)
    | EntryRow(entry: Entry)
    | EntryRows(entries: seq<Entry>)
    | EntryPage(entries: seq<Entry>, nextCursor: Option<nat>)
    | Removed

  /** What a call finds around it: the clock, the latest stored rate, and the first unused id. */
  datatype Env = Env(now: int, rate: Option<Rate>, nextId: nat)

  datatype Outcome = Outcome(store: Store, reply: Reply)

  // ----- Filters -----

  function GoalsOf(user: nat): Goal -> bool { (g: Goal) => g.userId == user }

  function EntriesOf(user: nat): Entry -> bool { (e: Entry) => e.userId == user }

  function OwnGoal(user: nat, id: nat): Goal -> bool { (g: Goal) => g.id == id && g.userId == user }

  function OwnGoalIn(user: nat, ids: set<nat>): Goal -> bool { (g: Goal) => g.id in ids && g.userId == user }

  function GoalWithId(id: nat): Goal -> bool { (g: Goal) => g.id == id }

  function OtherGoal(user: nat, id: nat): Goal -> bool { (g: Goal) => !(g.id == id && g.userId == user) }

  function OwnEntry(user: nat, id: nat): Entry -> bool { (e: Entry) => e.id == id && e.userId == user }

  function OtherEntry(user: nat, id: nat): Entry -> bool { (e: Entry) => !(e.id == id && e.userId == user) }

  function EntriesOn(user: nat, goalId: nat): Entry -> bool { (e: Entry) => e.goalId == goalId && e.userId == user }

  function NotOnGoal(goalId: nat): Entry -> bool { (e: Entry) => e.goalId != goalId }

  function FrozenAmount(): Entry -> real { (e: Entry) => e.amountInGoalCurrency }

  function First<T>(s: seq<T>): Option<T> {
    if s == [] then None else Some(s[0])
  }

  // ----- Freezing a conversion -----

  datatype Frozen = Frozen(amountInGoalCurrency: real, fxRateUsed: Option<Rate>)

  /** None when a rate is needed and there is none. */
  function FreezeEntryAmount(amount: real, entryCurrency: Currency, goalCurrency: Currency, rate: Option<Rate>)
    : Option<Frozen>
  {
    if entryCurrency == goalCurrency then Some(Frozen(amount, None))
    else if rate.None? then None
    else Some(Frozen(ConvertAmount(amount, entryCurrency, rate.value), rate))
  }

  predicate InFuture(date: int, now: int) {
    StripTime(date) > StripTime(now)
  }

  /** The row as stored: money columns keep two decimals, date columns keep the day. */
  function EntryData(id: nat, user: nat, goalId: nat, amount: real, currency: Currency, frozen: Frozen,
                     entryDate: int, note: Option<string>, now: int): Entry
  {
    Entry(id, user, goalId, ToCents(amount), currency, ToCents(frozen.amountInGoalCurrency), frozen.fxRateUsed,
          StripTime(entryDate), note, now)
  }

  // ----- Entries -----

  function CreateEntryStep(s: Store, user: nat, r: Request, env: Env): Outcome
    requires r.CreateEntry?
  {
    var goal := First(S.Filter(OwnGoal(user, r.goalId), s.goals));
    if goal.None? then Outcome(s, Failed(GoalNotFound))
    else if InFuture(r.entryDate, env.now) then Outcome(s, Failed(EntryDateFuture))
    else if r.amount <= 0.0 then Outcome(s, Failed(EntryAmountInvalid))
    else
      var frozen := FreezeEntryAmount(r.amount, r.currency, goal.value.currency, env.rate);
      if frozen.None? then Outcome(s, Failed(RateUnavailable))
      else
        var row := EntryData(env.nextId, user, r.goalId, r.amount, r.currency, frozen.value,
                             r.entryDate, r.note, env.now);
        Outcome(s.(entries := s.entries + [row]), EntryRow(row))
  }

  function SplitGoalIds(allocations: seq<SplitLine>): set<nat> {
    set a | a in allocations :: a.goalId
  }

  /** The currency of the goal with this id among the rows found; a foreign or unknown id has none. */
  function CurrencyOf(goals: seq<Goal>, id: nat): Option<Currency> {
    var goal := First(S.Filter(GoalWithId(id), goals));
    if goal.None? then None else Some(goal.value.currency)
  }

  predicate SplitNeedsRate(goals: seq<Goal>, allocations: seq<SplitLine>) {
    exists a :: a in allocations && CurrencyOf(goals, a.goalId) != Some(a.currency)
  }

  /** One split row. The defaults are never taken once every goal is found and a needed rate is there. */
  function SplitRow(id: nat, user: nat, goals: seq<Goal>, a: SplitLine, entryDate: int, note: Option<string>, env: Env)
    : Entry
  {
    var goalCurrency := CurrencyOf(goals, a.goalId).GetOr(a.currency);
    var frozen := FreezeEntryAmount(a.amount, a.currency, goalCurrency, env.rate).GetOr(Frozen(a.amount, None));
    EntryData(id, user, a.goalId, a.amount, a.currency, frozen, entryDate, note, env.now)
  }

  function SplitRows(user: nat, goals: seq<Goal>, allocations: seq<SplitLine>, entryDate: int, note: Option<string>,
                     env: Env): (rows: seq<Entry>)
    ensures |rows| == |allocations|
    ensures forall i :: 0 <= i < |rows| ==>
                          rows[i] == SplitRow(env.nextId + i, user, goals, allocations[i], entryDate, note, env)
  {
    if allocations == [] then []
    else
      var n := |allocations| - 1;
      SplitRows(user, goals, allocations[..n], entryDate, note, env)
      + [SplitRow(env.nextId + n, user, goals, allocations[n], entryDate, note, env)]
  }

  lemma SplitRowsNext(user: nat, goals: seq<Goal>, allocations: seq<SplitLine>, entryDate: int, note: Option<string>,
                      env: Env, i: nat)
    requires i < |allocations|
    ensures SplitRows(user, goals, allocations[..i + 1], entryDate, note, env)
            == SplitRows(user, goals, allocations[..i], entryDate, note, env)
               + [SplitRow(env.nextId + i, user, goals, allocations[i], entryDate, note, env)]
  {
    assert allocations[..i + 1][..i] == allocations[..i];
  }

  function CreateSplitStep(s: Store, user: nat, r: Request, env: Env): Outcome
    requires r.CreateSplit?
  {
    var ids := SplitGoalIds(r.allocations);
    if InFuture(r.entryDate, env.now) then Outcome(s, Failed(EntryDateFuture))
    else if |ids| != |r.allocations| then Outcome(s, Failed(SplitDuplicateGoal))
    else if exists a :: a in r.allocations && a.amount <= 0.0 then Outcome(s, Failed(SplitAmountInvalid))
    else
      var goals := S.Filter(OwnGoalIn(user, ids), s.goals);
      if |goals| != |r.allocations| then Outcome(s, Failed(GoalNotFound))
      else if SplitNeedsRate(goals, r.allocations) && env.rate.None? then Outcome(s, Failed(RateUnavailable))
      else Recorded(s, SplitRows(user, goals, r.allocations, r.entryDate, r.note, env))
  }

  /** The one transaction that writes all rows. */
  function Recorded(s: Store, rows: seq<Entry>): Outcome {
    Outcome(s.(entries := s.entries + rows), EntryRows(rows))
  }

  /** Newest first: later entry date, then later creation time. */
  predicate Newer(a: Entry, b: Entry) {
    a.entryDate > b.entryDate || (a.entryDate == b.entryDate && a.createdAt >= b.createdAt)
  }

  function InsertNewest(e: Entry, s: seq<Entry>): seq<Entry> {
    if s == [] || Newer(e, s[0]) then [e] + s else [s[0]] + InsertNewest(e, s[1..])
  }

  function NewestFirst(s: seq<Entry>): seq<Entry> {
    if s == [] then [] else InsertNewest(s[0], NewestFirst(s[1..]))
  }

  /** The rows after the one the cursor names. */
  function AfterCursor(rows: seq<Entry>, cursor: Option<nat>): (r: seq<Entry>)
    ensures |r| <= |rows|
  {
    if cursor.None? then rows
    else if rows == [] then []
    else if rows[0].id == cursor.value then rows[1..]
    else AfterCursor(rows[1..], cursor)
  }

  /** One page of already ordered rows: fetches one row more than the page to learn whether another follows. */
  function PageOf(ordered: seq<Entry>, limit: nat, cursor: Option<nat>): Reply {
    var pageSize := if limit < DEFAULT_PAGE_SIZE then limit else DEFAULT_PAGE_SIZE;
    var after := AfterCursor(ordered, cursor);
    var rows := if |after| > pageSize + 1 then after[..pageSize + 1] else after;
    if |rows| <= pageSize then EntryPage(rows, None)
    else if pageSize == 0 then Failed(InternalError)
    else EntryPage(rows[..pageSize], Some(rows[pageSize - 1].id))
  }

  function ListEntriesStep(s: Store, user: nat, r: Request): Outcome
    requires r.ListEntries?
  {
    if First(S.Filter(OwnGoal(user, r.goalId), s.goals)).None? then Outcome(s, Failed(GoalNotFound))
    else Outcome(s, PageOf(NewestFirst(S.Filter(EntriesOn(user, r.goalId), s.entries)), r.limit, r.cursor))
  }

  function EditedEntry(r: Request, frozen: Option<Frozen>): Entry -> Entry
    requires r.UpdateEntry?
  {
    (e: Entry) => e.(
      amount := if r.newAmount.Some? then ToCents(r.newAmount.value) else e.amount,
      currency := r.newCurrency.GetOr(e.currency),
      entryDate := if r.newDate.Some? then StripTime(r.newDate.value) else e.entryDate,
      note := if r.newNote.Some? then r.newNote else e.note,
      amountInGoalCurrency :=
        if frozen.Some? then ToCents(frozen.value.amountInGoalCurrency) else e.amountInGoalCurrency,
      fxRateUsed := if frozen.Some? then frozen.value.fxRateUsed else e.fxRateUsed)
  }

  predicate Refreezes(r: Request)
    requires r.UpdateEntry?
  {
    r.newAmount.Some? || r.newCurrency.Some?
  }

  /** The new frozen pair, if the edit touches amount or currency and any needed rate is there. */
  function Refrozen(goals: seq<Goal>, entry: Entry, r: Request, env: Env): Option<Frozen>
    requires r.UpdateEntry?
  {
    if !Refreezes(r) then None
    else FreezeEntryAmount(r.newAmount.GetOr(entry.amount), r.newCurrency.GetOr(entry.currency),
                           CurrencyOf(goals, entry.goalId).GetOr(entry.currency), env.rate)
  }

  /** The edit of the entry found, with the frozen pair it will carry. */
  function EditOutcome(s: Store, user: nat, r: Request, found: Option<Entry>, frozen: Option<Frozen>, now: int): Outcome
    requires r.UpdateEntry?
  {
    if found.None? then Outcome(s, Failed(EntryNotFound))
    else if r.newDate.Some? && InFuture(r.newDate.value, now) then Outcome(s, Failed(EntryDateFuture))
    else if Refreezes(r) && frozen.None? then Outcome(s, Failed(RateUnavailable))
    else
      var entries := S.UpdateWhere(OwnEntry(user, r.id), EditedEntry(r, frozen), s.entries);
      Outcome(s.(entries := entries), EntryRow(EditedEntry(r, frozen)(found.value)))
  }

  function UpdateEntryStep(s: Store, user: nat, r: Request, env: Env): Outcome
    requires r.UpdateEntry?
  {
    var found := First(S.Filter(OwnEntry(user, r.id), s.entries));
    EditOutcome(s, user, r, found, if found.None? then None else Refrozen(s.goals, found.value, r, env), env.now)
  }

  function RemoveEntryStep(s: Store, user: nat, r: Request): Outcome
    requires r.RemoveEntry?
  {
    if S.Filter(OwnEntry(user, r.id), s.entries) == [] then Outcome(s, Failed(EntryNotFound))
    else Outcome(s.(entries := S.Filter(OtherEntry(user, r.id), s.entries)), Removed)
  }

  // ----- Goals -----

  /** None if the deadline lies before today; the date column keeps the day. */
  function ParseDeadline(deadline: Option<int>, now: int): Option<Option<int>> {
    if deadline.None? then Some(None)
    else if StripTime(deadline.value) < StripTime(now) then None
    else Some(Some(StripTime(deadline.value)))
  }

  function CreateGoalStep(s: Store, user: nat, r: Request, env: Env): Outcome
    requires r.CreateGoal?
  {
    var deadline := ParseDeadline(r.deadline, env.now);
    if r.target <= 0.0 then Outcome(s, Failed(GoalTargetAmountInvalid))
    else if deadline.None? then Outcome(s, Failed(GoalDeadlinePast))
    else
      var row := Goal(env.nextId, user, r.name, ToCents(r.target), r.currency, deadline.value, env.now);
      Outcome(s.(goals := s.goals + [row]), GoalRow(row))
  }

  /** The aggregate over one goal's entries. */
  function SavedOn(entries: seq<Entry>, user: nat, goalId: nat): real {
    S.Sum(FrozenAmount(), S.Filter(EntriesOn(user, goalId), entries))
  }

  /** The one-pass group-by over all of a user's entries. */
  function GroupedSums(entries: seq<Entry>, user: nat): map<nat, real> {
    if entries == [] then map[]
    else
      var rest := GroupedSums(entries[1..], user);
      var e := entries[0];
      if e.userId != user then rest
      else rest[e.goalId := e.amountInGoalCurrency + if e.goalId in rest then rest[e.goalId] else 0.0]
  }

  function AttachProgress(goal: Goal, saved: real, env: Env): GoalView {
    GoalView(goal, ComputeProgress(goal.targetAmount, saved, goal.currency, goal.deadline, env.now, env.rate))
  }

  function InsertGoal(g: Goal, s: seq<Goal>): seq<Goal> {
    if s == [] || g.createdAt >= s[0].createdAt then [g] + s else [s[0]] + InsertGoal(g, s[1..])
  }

  function GoalsNewestFirst(s: seq<Goal>): seq<Goal> {
    if s == [] then [] else InsertGoal(s[0], GoalsNewestFirst(s[1..]))
  }

  function ViewWith(sums: map<nat, real>, env: Env): Goal -> GoalView {
    (g: Goal) => AttachProgress(g, if g.id in sums then sums[g.id] else 0.0, env)
  }

  function FindAllViews(s: Store, user: nat, env: Env): seq<GoalView> {
    S.Map(ViewWith(GroupedSums(s.entries, user), env), GoalsNewestFirst(S.Filter(GoalsOf(user), s.goals)))
  }

  function FindGoalReply(s: Store, user: nat, id: nat, env: Env): Reply {
    var goal := First(S.Filter(OwnGoal(user, id), s.goals));
    if goal.None? then Failed(GoalNotFound)
    else GoalViews([AttachProgress(goal.value, SavedOn(s.entries, user, id), env)])
  }

  function EditedGoal(r: Request, deadline: Option<int>): Goal -> Goal
    requires r.UpdateGoal?
  {
    (g: Goal) => g.(
      name := r.newName.GetOr(g.name),
      targetAmount := if r.newTarget.Some? then ToCents(r.newTarget.value) else g.targetAmount,
      deadline := if r.newDeadline.Some? then deadline else g.deadline)
  }

  function UpdateGoalStep(s: Store, user: nat, r: Request, env: Env): Outcome
    requires r.UpdateGoal?
  {
    var deadline := ParseDeadline(r.newDeadline.GetOr(None), env.now);
    if r.newTarget.Some? && r.newTarget.value <= 0.0 then Outcome(s, Failed(GoalTargetAmountInvalid))
    else if deadline.None? then Outcome(s, Failed(GoalDeadlinePast))
    else if S.Filter(OwnGoal(user, r.id), s.goals) == [] then Outcome(s, Failed(GoalNotFound))
    else
      var t := s.(goals := S.UpdateWhere(OwnGoal(user, r.id), EditedGoal(r, deadline.value), s.goals));
      Outcome(t, FindGoalReply(t, user, r.id, env))
  }

  /** Deleting a goal cascades to every entry that refers to it. */
  function RemoveGoalStep(s: Store, user: nat, r: Request): Outcome
    requires r.RemoveGoal?
  {
    if S.Filter(OwnGoal(user, r.id), s.goals) == [] then Outcome(s, Failed(GoalNotFound))
    else Outcome(Store(S.Filter(OtherGoal(user, r.id), s.goals), S.Filter(NotOnGoal(r.id), s.entries)), Removed)
  }

  // ----- One call -----

  function Step(s: Store, user: nat, r: Request, env: Env): Outcome {
    match r
    case CreateGoal(_, _, _, _) => CreateGoalStep(s, user, r, env)
    case FindAllGoals => Outcome(s, GoalViews(FindAllViews(s, user, env)))
    case FindGoal(id) => Outcome(s, FindGoalReply(s, user, id, env))
    case UpdateGoal(_, _, _, _) => UpdateGoalStep(s, user, r, env)
    case RemoveGoal(_) => RemoveGoalStep(s, user, r)
    case CreateEntry(_, _, _, _, _) => CreateEntryStep(s, user, r, env)
    case CreateSplit(_, _, _) => CreateSplitStep(s, user, r, env)
    case ListEntries(_, _, _) => ListEntriesStep(s, user, r)
    case UpdateEntry(_, _, _, _, _) => UpdateEntryStep(s, user, r, env)
    case RemoveEntry(_) => RemoveEntryStep(s, user, r)
  }

  /** How many ids a call may use up. */
  function NewRows(r: Request): nat {
    match r
    case CreateGoal(_, _, _, _) => 1
    case CreateEntry(_, _, _, _, _) => 1
    case CreateSplit(_, _, allocations) => |allocations|
    case _ => 0
  }
}
