/** The daily rate snapshot and the alerts that fire when a rate crosses their threshold. */
module RateAlerts {
  import opened Decimals
  import opened Sequences

  datatype Direction = Above | Below

  /** `lastTriggered` is the time and the rate, at column scale, of the latest stamp. */
  datatype Alert = Alert(id: nat, direction: Direction, threshold: real, active: bool,
                         lastTriggered: Option<(int, real)>)

  datatype TriggeredAlert = TriggeredAlert(alertId: nat, rate: real)

  datatype Snapshot = Snapshot(day: nat, rate: real)

  // ----- The evaluator -----

  /** The rate satisfies the alert's condition. */
  predicate Meets(direction: Direction, threshold: real, rate: real) {
    match direction
    case Above => rate >= threshold
    case Below => rate <= threshold
  }

  predicate Crosses(direction: Direction, threshold: real, prev: real, rate: real) {
    !Meets(direction, threshold, prev) && Meets(direction, threshold, rate)
  }

  predicate Fires(prev: Option<real>, rate: real, a: Alert) {
    prev.Some? && a.active && Crosses(a.direction, a.threshold, prev.value, rate)
  }

  function Triggered(prev: Option<real>, rate: real, alerts: seq<Alert>): seq<TriggeredAlert> {
    Map((a: Alert) => TriggeredAlert(a.id, rate), Filter(a => Fires(prev, rate, a), alerts))
  }

  lemma TriggeredOneMore(prev: Option<real>, rate: real, alerts: seq<Alert>, i: nat)
    requires i < |alerts|
    ensures Triggered(prev, rate, alerts[..i + 1])
         == Triggered(prev, rate, alerts[..i])
            + if Fires(prev, rate, alerts[i]) then [TriggeredAlert(alerts[i].id, rate)] else []
  {
    assert alerts[..i + 1] == alerts[..i] + [alerts[i]];
    FilterAppend(a => Fires(prev, rate, a), alerts[..i], [alerts[i]]);
  }

  lemma NoneTriggered(rate: real, alerts: seq<Alert>)
    ensures Triggered(None, rate, alerts) == []
  {
    FilterNone(a => Fires(None, rate, a), alerts);
  }

  method Evaluate(prev: Option<real>, rate: real, alerts: seq<Alert>) returns (triggered: seq<TriggeredAlert>)
    ensures triggered == Triggered(prev, rate, alerts)
  {
    triggered := [];
    if prev.None? {
      NoneTriggered(rate, alerts);
      return;
    }
    for i := 0 to |alerts|
      invariant triggered == Triggered(prev, rate, alerts[..i])
    {
      var alert := alerts[i];
      TriggeredOneMore(prev, rate, alerts, i);
      if !alert.active {
        continue;
      }
      var crossedAbove := alert.direction.Above? && prev.value < alert.threshold && rate >= alert.threshold;
      var crossedBelow := alert.direction.Below? && prev.value > alert.threshold && rate <= alert.threshold;
      if crossedAbove || crossedBelow {
        triggered := triggered + [TriggeredAlert(alert.id, rate)];
      }
    }
    assert alerts[..|alerts|] == alerts;
  }

  // ----- The snapshot routine -----

  /** What goes wrong in one attempt after the fetch; of several stamps some may land before the failure shows. */
  datatype Fault = NoFault | WriteFails | ReadAlertsFails | StampsFail(landed: set<nat>)

  datatype Tables = Tables(snapshots: seq<Snapshot>, alerts: seq<Alert>)

  predicate HasDay(snapshots: seq<Snapshot>, day: nat) {
    exists r :: r in snapshots && r.day == day
  }

  /** The latest row before a day. */
  function LatestBefore(snapshots: seq<Snapshot>, day: nat): (r: Option<Snapshot>)
    ensures r.None? ==> forall x :: x in snapshots ==> x.day >= day
    ensures r.Some? ==> r.value in snapshots && r.value.day < day
    ensures r.Some? ==> forall x :: x in snapshots && x.day < day ==> x.day <= r.value.day
  {
    if snapshots == [] then None
    else
      var best, x := LatestBefore(snapshots[1..], day), snapshots[0];
      if x.day < day && (best.None? || best.value.day <= x.day) then Some(x) else best
  }

  function PrevRate(snapshots: seq<Snapshot>, day: nat): Option<real> {
    var prev := LatestBefore(snapshots, day);
    if prev.Some? then Some(prev.value.rate) else None
  }

  /** The alerts with these ids get a stamp, each with the time on the clock at its own update. */
  function Stamped(alerts: seq<Alert>, ids: set<nat>, clock: nat -> int, rate: real): seq<Alert> {
    UpdateWhere((a: Alert) => a.id in ids,
                (a: Alert) => a.(lastTriggered := Some((clock(a.id), ToRateScale(rate)))), alerts)
  }

  function FiredIds(triggered: seq<TriggeredAlert>): (ids: set<nat>)
    ensures forall n :: n in ids <==> exists t :: t in triggered && t.alertId == n
  {
    set t | t in triggered :: t.alertId
  }

  /** Whether the attempt writes the day's row. */
  predicate Writes(t: Tables, today: nat, fetched: Option<real>, fault: Fault) {
    !HasDay(t.snapshots, today) && fetched.Some? && !fault.WriteFails?
  }

  function FiredBy(t: Tables, today: nat, rate: real, fault: Fault): seq<TriggeredAlert> {
    if fault.ReadAlertsFails? then []
    else Triggered(PrevRate(t.snapshots, today), rate, Filter((a: Alert) => a.active, t.alerts))
  }

  function Landed(ids: set<nat>, fault: Fault): set<nat> {
    if fault.StampsFail? then ids * fault.landed else ids
  }

  function Attempted(t: Tables, today: nat, fetched: Option<real>, fault: Fault, clock: nat -> int): Tables {
    if !Writes(t, today, fetched, fault) then t
    else
      var ids := Landed(FiredIds(FiredBy(t, today, fetched.value, fault)), fault);
      Tables(t.snapshots + [Snapshot(today, ToRateScale(fetched.value))], Stamped(t.alerts, ids, clock, fetched.value))
  }

  lemma StampedNone(alerts: seq<Alert>, clock: nat -> int, rate: real)
    ensures Stamped(alerts, {}, clock, rate) == alerts
  {
    var s := Stamped(alerts, {}, clock, rate);
    assert forall i :: 0 <= i < |alerts| ==> s[i] == alerts[i];
  }

  lemma StampedOneMore(alerts: seq<Alert>, ids: set<nat>, id: nat, clock: nat -> int, rate: real)
    ensures Stamped(Stamped(alerts, ids, clock, rate), {id}, clock, rate) == Stamped(alerts, ids + {id}, clock, rate)
  {
    var once := Stamped(alerts, ids, clock, rate);
    var twice, both := Stamped(once, {id}, clock, rate), Stamped(alerts, ids + {id}, clock, rate);
    forall i | 0 <= i < |alerts| ensures twice[i] == both[i] {
      assert once[i].id == alerts[i].id;
    }
  }

  lemma FiredOneMore(triggered: seq<TriggeredAlert>, i: nat)
    requires i < |triggered|
    ensures FiredIds(triggered[..i + 1]) == FiredIds(triggered[..i]) + {triggered[i].alertId}
  {
    assert triggered[..i + 1] == triggered[..i] + [triggered[i]];
  }

  class RateSnapshotScheduler {
    var snapshots: seq<Snapshot>
    var alerts: seq<Alert>

    constructor (alerts: seq<Alert>)
      ensures this.snapshots == [] && this.alerts == alerts
    {
      this.snapshots, this.alerts := [], alerts;
    }

    method RunSnapshot(today: nat, fetched: Option<real>, fault: Fault, clock: nat -> int)
      modifies this
      ensures Tables(snapshots, alerts) == Attempted(Tables(old(snapshots), old(alerts)), today, fetched, fault, clock)
    {
      if HasDay(snapshots, today) {
        return;
      }
      if fetched.None? || fault.WriteFails? {
        return;
      }
      var rate := fetched.value;
      var prev := PrevRate(snapshots, today);
      snapshots := snapshots + [Snapshot(today, ToRateScale(rate))];
      var triggered := [];
      if !fault.ReadAlertsFails? {
        triggered := Evaluate(prev, rate, Filter((a: Alert) => a.active, alerts));
      }
      StampAll(triggered, clock, rate, fault);
    }

    /** The stamps are independent updates; under a fault only some land. */
    method StampAll(triggered: seq<TriggeredAlert>, clock: nat -> int, rate: real, fault: Fault)
      modifies this`alerts
      ensures alerts == Stamped(old(alerts), Landed(FiredIds(triggered), fault), clock, rate)
    {
      StampedNone(alerts, clock, rate);
      for i := 0 to |triggered|
        invariant alerts == Stamped(old(alerts), Landed(FiredIds(triggered[..i]), fault), clock, rate)
      {
        var id := triggered[i].alertId;
        FiredOneMore(triggered, i);
        StampedOneMore(old(alerts), Landed(FiredIds(triggered[..i]), fault), id, clock, rate);
        if !fault.StampsFail? || id in fault.landed {
          Stamp(id, clock, rate);
          assert Landed(FiredIds(triggered[..i + 1]), fault) == Landed(FiredIds(triggered[..i]), fault) + {id};
        } else {
          assert Landed(FiredIds(triggered[..i + 1]), fault) == Landed(FiredIds(triggered[..i]), fault);
        }
      }
      assert triggered[..|triggered|] == triggered;
    }

    method Stamp(id: nat, clock: nat -> int, rate: real)
      modifies this`alerts
      ensures alerts == Stamped(old(alerts), {id}, clock, rate)
    {
      alerts := UpdateWhere((a: Alert) => a.id in {id},
                            (a: Alert) => a.(lastTriggered := Some((clock(a.id), ToRateScale(rate)))), alerts);
    }
  }

  // ----- What one attempt fires -----

  lemma {:induction false} MemberOfFilter<T(!new)>(keep: T -> bool, s: seq<T>, x: T)
    ensures x in Filter(keep, s) <==> x in s && keep(x)
  {
    if s != [] {
      MemberOfFilter(keep, s[1..], x);
      assert s == [s[0]] + s[1..];
    }
  }

  /** From strictly the other side onto or over the threshold. */
  predicate TurnsTrue(a: Alert, prev: real, rate: real) {
    if a.direction == Above then prev < a.threshold <= rate else prev > a.threshold >= rate
  }

  /** The evaluation reports exactly the active alerts whose condition turned true, with the new rate, in list order. */
  lemma FiredAreTheCrossed(prev: Option<real>, rate: real, alerts: seq<Alert>, id: nat)
    ensures id in FiredIds(Triggered(prev, rate, alerts))
            <==> prev.Some? && exists a :: a in alerts && a.id == id && a.active && TurnsTrue(a, prev.value, rate)
    ensures forall t :: t in Triggered(prev, rate, alerts) ==> t.rate == rate
  {
    FiredAreTheFiring(prev, rate, alerts, id);
    forall a | a in alerts && prev.Some? ensures Fires(prev, rate, a) <==> a.active && TurnsTrue(a, prev.value, rate) {
    }
  }

  lemma FiredAreTheFiring(prev: Option<real>, rate: real, alerts: seq<Alert>, id: nat)
    ensures id in FiredIds(Triggered(prev, rate, alerts))
            <==> exists a :: a in alerts && a.id == id && Fires(prev, rate, a)
  {
    var fires := a => Fires(prev, rate, a);
    var kept := Filter(fires, alerts);
    var fired := Triggered(prev, rate, alerts);
    if id in FiredIds(fired) {
      var i :| 0 <= i < |fired| && fired[i].alertId == id;
      MemberOfFilter(fires, alerts, kept[i]);
    }
    forall a | a in alerts && a.id == id && Fires(prev, rate, a) ensures id in FiredIds(fired) {
      MemberOfFilter(fires, alerts, a);
      var i :| 0 <= i < |kept| && kept[i] == a;
      assert fired[i] in fired;
    }
  }

  /** Whether the attempt fires the alert with this id. */
  ghost predicate FiredIn(t: Tables, e: Event, id: nat) {
    e.Attempt? && Writes(t, e.today, e.fetched, e.fault)
    && id in FiredIds(FiredBy(t, e.today, e.fetched.value, e.fault))
  }

  ghost predicate Holds(t: Tables, a: Alert) {
    a in t.alerts && UniqueBy((x: Alert) => x.id, t.alerts)
  }

  lemma FiredInMeansCrossed(t: Tables, e: Event, a: Alert)
    requires Holds(t, a) && e.Attempt? && Writes(t, e.today, e.fetched, e.fault)
    ensures FiredIn(t, e, a.id) <==>
              !e.fault.ReadAlertsFails? && Fires(PrevRate(t.snapshots, e.today), e.fetched.value, a)
  {
    var key, active := (x: Alert) => x.id, (x: Alert) => x.active;
    var prev, listed := PrevRate(t.snapshots, e.today), Filter(active, t.alerts);
    FiredAreTheFiring(prev, e.fetched.value, listed, a.id);
    MemberOfFilter(active, t.alerts, a);
    forall b | b in listed && b.id == a.id ensures b == a {
      MemberOfFilter(active, t.alerts, b);
      UniqueMember(key, t.alerts, a, b);
    }
  }

  /** Whether a stamp that was tried got through. */
  predicate Lands(fault: Fault, id: nat) {
    fault.StampsFail? ==> id in fault.landed
  }

  /** Each alert that fires is stamped with the time of its update and the rate at column scale, if that update lands;
      every other alert keeps its stamp, and nothing else of any alert changes. */
  lemma StampsFollowFirings(t: Tables, e: Event, i: nat)
    requires i < |t.alerts| && e.Attempt?
    ensures var after := Next(t, e).alerts;
            |after| == |t.alerts|
            && after[i] == if FiredIn(t, e, t.alerts[i].id) && Lands(e.fault, t.alerts[i].id)
                           then t.alerts[i].(lastTriggered :=
                                  Some((e.clock(t.alerts[i].id), ToRateScale(e.fetched.value))))
                           else t.alerts[i]
  {
  }

  /** Rounding moves the fetched rate onto the threshold. */
  predicate RoundsOnto(direction: Direction, threshold: real, rate: real) {
    !Meets(direction, threshold, rate) && Meets(direction, threshold, ToRateScale(rate))
  }

  /** A stored rate meets every condition on the column's grid that the fetched rate met. */
  lemma StoringKeepsMeeting(direction: Direction, threshold: real, rate: real)
    requires IsRateScale(threshold) && Meets(direction, threshold, rate)
    ensures Meets(direction, threshold, ToRateScale(rate))
  {
    ToRateScaleFixesRateScale(threshold);
    if direction.Above? {
      ToRateScaleMonotone(threshold, rate);
    } else {
      ToRateScaleMonotone(rate, threshold);
    }
  }

  /** The stored rates cross the alert's threshold in this attempt. */
  predicate StoredCrossing(t: Tables, e: Event, direction: Direction, threshold: real)
    requires e.Attempt? && e.fetched.Some?
  {
    var prev := PrevRate(t.snapshots, e.today);
    prev.Some? && Crosses(direction, threshold, prev.value, ToRateScale(e.fetched.value))
  }

  /** An active alert fires exactly when the stored rates cross, the alerts could be read,
      and rounding did not put the stored rate onto the threshold. */
  lemma FiresIff(t: Tables, e: Event, a: Alert)
    requires Holds(t, a) && a.active && IsRateScale(a.threshold)
    requires e.Attempt? && Writes(t, e.today, e.fetched, e.fault)
    ensures FiredIn(t, e, a.id) <==>
              && StoredCrossing(t, e, a.direction, a.threshold)
              && !e.fault.ReadAlertsFails?
              && !RoundsOnto(a.direction, a.threshold, e.fetched.value)
  {
    FiredInMeansCrossed(t, e, a);
    if Meets(a.direction, a.threshold, e.fetched.value) {
      StoringKeepsMeeting(a.direction, a.threshold, e.fetched.value);
    }
  }

  // ----- Runs -----

  /** A snapshot attempt, or any change users make to the alerts. */
  datatype Event =
    | Attempt(today: nat, fetched: Option<real>, fault: Fault, clock: nat -> int)
    | Edit(alerts: seq<Alert>)

  function Next(t: Tables, e: Event): Tables {
    match e
    case Attempt(today, fetched, fault, clock) => Attempted(t, today, fetched, fault, clock)
    case Edit(alerts) => t.(alerts := alerts)
  }

  /** The clock never shows a day before one already stored. */
  ghost predicate ClockOk(t: Tables, e: Event) {
    e.Attempt? ==> forall r :: r in t.snapshots ==> r.day <= e.today
  }

  ghost predicate DaysAscend(snapshots: seq<Snapshot>) {
    forall i, j :: 0 <= i < j < |snapshots| ==> snapshots[i].day < snapshots[j].day
  }

  ghost predicate IsRun(ts: seq<Tables>, es: seq<Event>) {
    && |ts| == |es| + 1 && DaysAscend(ts[0].snapshots)
    && forall i :: 0 <= i < |es| ==> ClockOk(ts[i], es[i]) && ts[i + 1] == Next(ts[i], es[i])
  }

  lemma StepKeepsDays(t: Tables, e: Event)
    requires DaysAscend(t.snapshots) && ClockOk(t, e)
    ensures DaysAscend(Next(t, e).snapshots)
    ensures t.snapshots <= Next(t, e).snapshots
  {
    if e.Attempt? && Writes(t, e.today, e.fetched, e.fault) {
      forall i | 0 <= i < |t.snapshots| ensures t.snapshots[i].day < e.today {
        assert t.snapshots[i] in t.snapshots;
      }
    }
  }

  lemma {:induction false} SnapshotsGrow(ts: seq<Tables>, es: seq<Event>, i: nat, j: nat)
    requires IsRun(ts, es) && i <= j < |ts|
    ensures DaysAscend(ts[j].snapshots) && ts[i].snapshots <= ts[j].snapshots
    decreases j
  {
    if j > 0 {
      SnapshotsGrow(ts, es, if i == j then i - 1 else i, j - 1);
      StepKeepsDays(ts[j - 1], es[j - 1]);
    }
  }

  /** Between two firings on the same threshold some stored rate lies strictly on its other side,
      whatever failed and whatever was edited in between. */
  lemma BetweenFiringsTheRateCrossesBack(ts: seq<Tables>, es: seq<Event>, i: nat, j: nat, a: Alert, b: Alert)
    requires IsRun(ts, es) && i < j < |es|
    requires Holds(ts[i], a) && Holds(ts[j], b) && FiredIn(ts[i], es[i], a.id) && FiredIn(ts[j], es[j], b.id)
    requires a.direction == b.direction && a.threshold == b.threshold && IsRateScale(a.threshold)
    ensures exists r ::
              r in ts[j].snapshots && es[i].today < r.day < es[j].today && !Meets(a.direction, a.threshold, r.rate)
  {
    FiredInMeansCrossed(ts[i], es[i], a);
    FiredInMeansCrossed(ts[j], es[j], b);
    var first := Snapshot(es[i].today, ToRateScale(es[i].fetched.value));
    StoringKeepsMeeting(a.direction, a.threshold, es[i].fetched.value);
    SnapshotsGrow(ts, es, i + 1, j);
    assert ts[i + 1].snapshots[|ts[i].snapshots|] == first;
    assert ts[j].snapshots[|ts[i].snapshots|] == first;
    var prev := LatestBefore(ts[j].snapshots, es[j].today).value;
    assert first in ts[j].snapshots;
    assert first.day < es[j].today;
    assert prev.day == first.day ==> prev == first;
  }

  // ----- Which days an always-active alert fires on -----

  /** The alert stays as it is, stamps apart, in every state before an event. */
  ghost predicate Always(ts: seq<Tables>, es: seq<Event>, id: nat, direction: Direction, threshold: real) {
    forall j :: 0 <= j < |es| && j < |ts| ==> Watching(ts[j], id, direction, threshold)
  }

  ghost predicate Watching(t: Tables, id: nat, direction: Direction, threshold: real) {
    exists a :: Holds(t, a) && a.id == id && a.active && a.direction == direction && a.threshold == threshold
  }

  /** No attempt that got as far as reading the alerts failed to. */
  ghost predicate EveryRunEvaluates(es: seq<Event>) {
    forall j :: 0 <= j < |es| && es[j].Attempt? ==> !es[j].fault.ReadAlertsFails?
  }

  predicate WritesRow(t: Tables, e: Event) {
    e.Attempt? && Writes(t, e.today, e.fetched, e.fault)
  }

  ghost predicate FiredOn(ts: seq<Tables>, es: seq<Event>, id: nat, day: nat)
    requires |ts| == |es| + 1
  {
    exists j :: 0 <= j < |es| && FiredIn(ts[j], es[j], id) && es[j].today == day
  }

  /** The k-th stored rate crosses the threshold, coming from the one before. */
  predicate CrossesAt(snapshots: seq<Snapshot>, k: nat, direction: Direction, threshold: real)
    requires k < |snapshots|
  {
    k > 0 && Crosses(direction, threshold, snapshots[k - 1].rate, snapshots[k].rate)
  }

  /** The k-th row was written by one attempt, when the table had k rows. */
  lemma {:induction false} RowHasAWriter(ts: seq<Tables>, es: seq<Event>, n: nat, k: nat) returns (j: nat)
    requires IsRun(ts, es) && ts[0].snapshots == [] && n < |ts| && k < |ts[n].snapshots|
    ensures j < n && WritesRow(ts[j], es[j]) && |ts[j].snapshots| == k
    ensures es[j].today == ts[n].snapshots[k].day
    ensures ts[n].snapshots[k].rate == ToRateScale(es[j].fetched.value)
    ensures ts[j].snapshots == ts[n].snapshots[..k]
    decreases n
  {
    SnapshotsGrow(ts, es, n - 1, n);
    if k < |ts[n - 1].snapshots| {
      j := RowHasAWriter(ts, es, n - 1, k);
    } else {
      j := n - 1;
    }
  }

  lemma PrevIsTheRowBefore(snapshots: seq<Snapshot>, today: nat)
    requires DaysAscend(snapshots) && forall r :: r in snapshots ==> r.day < today
    ensures PrevRate(snapshots, today) == if snapshots == [] then None else Some(snapshots[|snapshots| - 1].rate)
  {
    if snapshots != [] {
      assert snapshots[|snapshots| - 1] in snapshots;
      var prev := LatestBefore(snapshots, today).value;
      var i :| 0 <= i < |snapshots| && snapshots[i] == prev;
    }
  }

  lemma WriterSeesTheRowBefore(t: Tables, e: Event)
    requires DaysAscend(t.snapshots) && ClockOk(t, e) && WritesRow(t, e)
    ensures PrevRate(t.snapshots, e.today)
         == if t.snapshots == [] then None else Some(t.snapshots[|t.snapshots| - 1].rate)
  {
    forall r | r in t.snapshots ensures r.day < e.today {
    }
    PrevIsTheRowBefore(t.snapshots, e.today);
  }

  /** Whether the attempt could write, were its day not stored yet. */
  predicate CouldWrite(e: Event) {
    e.Attempt? && e.fetched.Some? && !e.fault.WriteFails?
  }

  lemma AttemptStoresItsDay(ts: seq<Tables>, es: seq<Event>, j: nat)
    requires IsRun(ts, es) && j < |es| && CouldWrite(es[j])
    ensures HasDay(ts[|es|].snapshots, es[j].today)
  {
    SnapshotsGrow(ts, es, j + 1, |es|);
    if WritesRow(ts[j], es[j]) {
      assert ts[j + 1].snapshots[|ts[j].snapshots|].day == es[j].today;
      assert ts[j + 1].snapshots[|ts[j].snapshots|] in ts[|es|].snapshots;
    } else {
      var r :| r in ts[j].snapshots && r.day == es[j].today;
      assert r in ts[|es|].snapshots;
    }
  }

  lemma OneRowADay(rows: seq<Snapshot>)
    requires DaysAscend(rows)
    ensures forall r, q :: r in rows && q in rows && r.day == q.day ==> r == q
  {
    forall r, q | r in rows && q in rows && r.day == q.day ensures r == q {
      var i :| 0 <= i < |rows| && rows[i] == r;
      var j :| 0 <= j < |rows| && rows[j] == q;
    }
  }

  lemma StoredDayHasAnAttempt(ts: seq<Tables>, es: seq<Event>, r: Snapshot) returns (j: nat)
    requires IsRun(ts, es) && ts[0].snapshots == [] && r in ts[|es|].snapshots
    ensures j < |es| && CouldWrite(es[j]) && es[j].today == r.day
  {
    var k :| 0 <= k < |ts[|es|].snapshots| && ts[|es|].snapshots[k] == r;
    j := RowHasAWriter(ts, es, |es|, k);
  }

  /** Over every run from an empty table: a day has a row exactly if some attempt of that day fetched a rate and its
      write did not fail; and there is one row a day. */
  lemma DayIsStoredIff(ts: seq<Tables>, es: seq<Event>, day: nat)
    requires IsRun(ts, es) && ts[0].snapshots == []
    ensures (exists r :: r in ts[|es|].snapshots && r.day == day)
            <==> exists j :: 0 <= j < |es| && CouldWrite(es[j]) && es[j].today == day
    ensures forall r, q :: r in ts[|es|].snapshots && q in ts[|es|].snapshots && r.day == q.day ==> r == q
  {
    SnapshotsGrow(ts, es, 0, |es|);
    OneRowADay(ts[|es|].snapshots);
    if r :| r in ts[|es|].snapshots && r.day == day {
      var j := StoredDayHasAnAttempt(ts, es, r);
    }
    if j :| 0 <= j < |es| && CouldWrite(es[j]) && es[j].today == day {
      AttemptStoresItsDay(ts, es, j);
    }
  }

  /** The first attempt that could write decides the day's rate, to within half of a hundred-millionth. */
  lemma FirstAttemptDecidesTheRate(ts: seq<Tables>, es: seq<Event>, j: nat) returns (r: Snapshot)
    requires IsRun(ts, es) && ts[0].snapshots == [] && j < |es| && CouldWrite(es[j])
    requires forall i :: 0 <= i < j && CouldWrite(es[i]) ==> es[i].today != es[j].today
    ensures r in ts[|es|].snapshots && r.day == es[j].today
    ensures IsRateScale(r.rate) && -0.000000005 <= r.rate - es[j].fetched.value <= 0.000000005
  {
    AttemptStoresItsDay(ts, es, j);
    r :| r in ts[|es|].snapshots && r.day == es[j].today;
    var k :| 0 <= k < |ts[|es|].snapshots| && ts[|es|].snapshots[k] == r;
    var i := RowHasAWriter(ts, es, |es|, k);
    if j < i {
      SnapshotsGrow(ts, es, j + 1, i);
      RowBlocksItsDay(ts, es, j, i);
    }
  }

  lemma RowBlocksItsDay(ts: seq<Tables>, es: seq<Event>, j: nat, i: nat)
    requires IsRun(ts, es) && j < i < |es| && CouldWrite(es[j]) && es[i].Attempt? && es[i].today == es[j].today
    ensures !WritesRow(ts[i], es[i])
  {
    SnapshotsGrow(ts, es, j + 1, i);
    if WritesRow(ts[j], es[j]) {
      assert ts[j + 1].snapshots[|ts[j].snapshots|] in ts[i].snapshots;
    } else {
      var r :| r in ts[j].snapshots && r.day == es[j].today;
      assert r in ts[j + 1].snapshots && r in ts[i].snapshots;
    }
  }

  /** Two attempts that both write a row write rows of different days. */
  lemma OneWriterADay(ts: seq<Tables>, es: seq<Event>, i: nat, j: nat)
    requires IsRun(ts, es) && i < j < |es| && WritesRow(ts[i], es[i]) && WritesRow(ts[j], es[j])
    ensures es[i].today != es[j].today
  {
    SnapshotsGrow(ts, es, i + 1, j);
    var row := ts[i + 1].snapshots[|ts[i].snapshots|];
    assert ts[j].snapshots[|ts[i].snapshots|] == row;
    assert row in ts[j].snapshots;
  }

  /** The attempt writes a row that crosses the threshold, coming from the row before. */
  predicate StoresCrossing(t: Tables, e: Event, direction: Direction, threshold: real) {
    WritesRow(t, e) && StoredCrossing(t, e, direction, threshold)
  }

  /** The attempt stores a crossing but does not fire: the alerts could not be read, or the fetched rate was rounded
      onto the threshold. */
  predicate Lost(t: Tables, e: Event, direction: Direction, threshold: real) {
    StoresCrossing(t, e, direction, threshold)
    && (e.fault.ReadAlertsFails? || RoundsOnto(direction, threshold, e.fetched.value))
  }

  lemma FiredOnTheDayIff(ts: seq<Tables>, es: seq<Event>, id: nat, direction: Direction, threshold: real, j: nat)
    requires IsRun(ts, es) && Always(ts, es, id, direction, threshold)
    requires IsRateScale(threshold) && j < |es| && WritesRow(ts[j], es[j])
    ensures FiredOn(ts, es, id, es[j].today) <==>
              StoredCrossing(ts[j], es[j], direction, threshold) && !Lost(ts[j], es[j], direction, threshold)
  {
    var a :| Holds(ts[j], a) && a.id == id && a.active && a.direction == direction && a.threshold == threshold;
    FiresIff(ts[j], es[j], a);
    forall i | 0 <= i < |es| && FiredIn(ts[i], es[i], id) && es[i].today == es[j].today ensures i == j {
      if i < j {
        OneWriterADay(ts, es, i, j);
      } else if j < i {
        OneWriterADay(ts, es, j, i);
      }
    }
  }

  /** A day whose alerts could not be read is never made up for: its row stands, so every later attempt of the day does
      nothing, and no alert at all fires on it. */
  lemma FailedReadIsNeverRetried(ts: seq<Tables>, es: seq<Event>, j: nat, id: nat)
    requires IsRun(ts, es) && j < |es| && WritesRow(ts[j], es[j]) && es[j].fault.ReadAlertsFails?
    ensures !FiredOn(ts, es, id, es[j].today)
    ensures forall i :: j < i < |es| && es[i].Attempt? && es[i].today == es[j].today ==> ts[i + 1] == ts[i]
  {
    assert FiredIds([]) == {};
    forall i | 0 <= i < |es| && WritesRow(ts[i], es[i]) && es[i].today == es[j].today ensures i == j {
      if i < j {
        OneWriterADay(ts, es, i, j);
      } else if j < i {
        OneWriterADay(ts, es, j, i);
      }
    }
  }

  lemma StoredCrossingIsCrossesAt(t: Tables, e: Event, direction: Direction, threshold: real, rows: seq<Snapshot>)
    requires DaysAscend(t.snapshots) && ClockOk(t, e) && WritesRow(t, e)
    requires |t.snapshots| < |rows| && rows[..|t.snapshots|] == t.snapshots
    requires rows[|t.snapshots|].rate == ToRateScale(e.fetched.value)
    ensures StoredCrossing(t, e, direction, threshold) <==> CrossesAt(rows, |t.snapshots|, direction, threshold)
  {
    WriterSeesTheRowBefore(t, e);
    if t.snapshots != [] {
      assert t.snapshots[|t.snapshots| - 1] == rows[|t.snapshots| - 1];
    }
  }

  /** The day of the k-th row fires exactly if the rows cross there and its writer lost nothing. */
  lemma RowFiresIff(ts: seq<Tables>, es: seq<Event>, id: nat, direction: Direction, threshold: real, k: nat)
    returns (j: nat)
    requires IsRun(ts, es) && ts[0].snapshots == [] && k < |ts[|es|].snapshots|
    requires Always(ts, es, id, direction, threshold) && IsRateScale(threshold)
    ensures j < |es| && |ts[j].snapshots| == k && WritesRow(ts[j], es[j])
    ensures var rows := ts[|es|].snapshots;
            && (FiredOn(ts, es, id, rows[k].day) <==>
                  CrossesAt(rows, k, direction, threshold) && !Lost(ts[j], es[j], direction, threshold))
            && (Lost(ts[j], es[j], direction, threshold) ==> CrossesAt(rows, k, direction, threshold))
  {
    j := RowHasAWriter(ts, es, |es|, k);
    SnapshotsGrow(ts, es, 0, j);
    StoredCrossingIsCrossesAt(ts[j], es[j], direction, threshold, ts[|es|].snapshots);
    FiredOnTheDayIff(ts, es, id, direction, threshold, j);
  }

  /** The alert fires on exactly the days on which the stored rates cross its threshold. */
  ghost predicate FiresOnCrossingDays(ts: seq<Tables>, es: seq<Event>, id: nat, direction: Direction, threshold: real)
    requires |ts| == |es| + 1
  {
    forall k :: 0 <= k < |ts[|es|].snapshots| ==>
      (FiredOn(ts, es, id, ts[|es|].snapshots[k].day) <==> CrossesAt(ts[|es|].snapshots, k, direction, threshold))
  }

  /** An always-active alert fires on exactly the stored crossing days if and only if no attempt of the run lost
      a crossing. */
  lemma FiringDaysAreCrossingDaysIff(ts: seq<Tables>, es: seq<Event>, id: nat, direction: Direction, threshold: real)
    requires IsRun(ts, es) && ts[0].snapshots == []
    requires Always(ts, es, id, direction, threshold) && IsRateScale(threshold)
    ensures FiresOnCrossingDays(ts, es, id, direction, threshold)
            <==> forall j :: 0 <= j < |es| ==> !Lost(ts[j], es[j], direction, threshold)
  {
    var rows := ts[|es|].snapshots;
    if forall j :: 0 <= j < |es| ==> !Lost(ts[j], es[j], direction, threshold) {
      forall k | 0 <= k < |rows|
        ensures FiredOn(ts, es, id, rows[k].day) <==> CrossesAt(rows, k, direction, threshold)
      {
        var j := RowFiresIff(ts, es, id, direction, threshold, k);
      }
    } else {
      var j :| 0 <= j < |es| && Lost(ts[j], es[j], direction, threshold);
      var k := |ts[j].snapshots|;
      SnapshotsGrow(ts, es, j + 1, |es|);
      var w := RowFiresIff(ts, es, id, direction, threshold, k);
      OnlyWriterOfARow(ts, es, j, w);
    }
  }

  /** Where every attempt reads its alerts, only rounding can lose a crossing. */
  lemma EvaluatedRunsFireIff(ts: seq<Tables>, es: seq<Event>, id: nat, direction: Direction, threshold: real)
    requires IsRun(ts, es) && ts[0].snapshots == [] && EveryRunEvaluates(es)
    requires Always(ts, es, id, direction, threshold) && IsRateScale(threshold)
    ensures FiresOnCrossingDays(ts, es, id, direction, threshold)
            <==> forall j :: 0 <= j < |es| && StoresCrossing(ts[j], es[j], direction, threshold) ==>
                               !RoundsOnto(direction, threshold, es[j].fetched.value)
  {
    FiringDaysAreCrossingDaysIff(ts, es, id, direction, threshold);
    forall j | 0 <= j < |es| && StoresCrossing(ts[j], es[j], direction, threshold)
      ensures Lost(ts[j], es[j], direction, threshold) <==> RoundsOnto(direction, threshold, es[j].fetched.value)
    {
    }
  }

  lemma OnlyWriterOfARow(ts: seq<Tables>, es: seq<Event>, i: nat, j: nat)
    requires IsRun(ts, es) && i < |es| && j < |es| && WritesRow(ts[i], es[i]) && WritesRow(ts[j], es[j])
    requires |ts[i].snapshots| == |ts[j].snapshots|
    ensures i == j
  {
    if i < j {
      SnapshotsGrow(ts, es, i + 1, j);
    } else if j < i {
      SnapshotsGrow(ts, es, j + 1, i);
    }
  }

  /** Rates fetched on the column's grid never round, so then only a failed read can lose a crossing. */
  lemma GridRatesFireIff(ts: seq<Tables>, es: seq<Event>, id: nat, direction: Direction, threshold: real)
    requires IsRun(ts, es) && ts[0].snapshots == []
    requires Always(ts, es, id, direction, threshold) && IsRateScale(threshold)
    requires forall j :: 0 <= j < |es| && es[j].Attempt? && es[j].fetched.Some? ==> IsRateScale(es[j].fetched.value)
    ensures FiresOnCrossingDays(ts, es, id, direction, threshold)
            <==> forall j :: 0 <= j < |es| && StoresCrossing(ts[j], es[j], direction, threshold) ==>
                               !es[j].fault.ReadAlertsFails?
  {
    FiringDaysAreCrossingDaysIff(ts, es, id, direction, threshold);
    forall j | 0 <= j < |es| && StoresCrossing(ts[j], es[j], direction, threshold)
      ensures Lost(ts[j], es[j], direction, threshold) <==> es[j].fault.ReadAlertsFails?
    {
      ToRateScaleFixesRateScale(es[j].fetched.value);
    }
  }

  /** A rate fetched just under the threshold is stored as the threshold: that day does not fire, and the next
      cannot. */
  lemma RoundingCanSwallowACrossing(a: Alert)
    requires a.direction == Above && a.threshold == 170.0
    ensures var rates := [168.0, 169.999999996, 171.0];
            && ToRateScale(rates[1]) == 170.0
            && !Fires(Some(ToRateScale(rates[0])), rates[1], a)
            && !Fires(Some(ToRateScale(rates[1])), rates[2], a)
            && Crosses(Above, 170.0, ToRateScale(rates[0]), ToRateScale(rates[2]))
  {
    ToRateScaleFixesRateScale(168.0);
    ToRateScaleFixesRateScale(171.0);
    assert 169.999999996 * 100000000.0 + 0.5 == 17000000000.1;
    assert (169.999999996 * 100000000.0 + 0.5).Floor == 17000000000;
  }
}
