/** Goal progress: what is left, how many months remain, what to put aside monthly, and the goal's status.
    A date is its number of milliseconds since the epoch, in UTC. */
module GoalMath {
  import opened Decimals
  import opened Conversion

  const MS_PER_DAY := 86_400_000

  datatype DeadlineStatus = OnTrack | Overdue | NoDeadline | Completed

  datatype Progress = Progress(
    savedAmount: real,
    targetAmount: real,
    currency: Currency,
    progressPercent: real,
    remainingAmount: real,
    remainingInOtherCurrency: Option<real>,
    otherCurrency: Currency,
    rateUsed: Option<Rate>,
    monthsRemaining: Option<int>,
    suggestedMonthlyAmount: Option<int>,
    deadlineStatus: DeadlineStatus)

  function Max(x: real, y: real): real {
    if x >= y then x else y
  }

  /** Midnight UTC of the day a date falls on. */
  function StripTime(date: int): int {
    date / MS_PER_DAY * MS_PER_DAY
  }

  function DaysBetween(start: int, end: int): int {
    (StripTime(end) - StripTime(start)) / MS_PER_DAY
  }

  /** Months of 30.44 days, rounded up, at least one; None without a deadline or after it. */
  function ComputeMonthsRemaining(deadline: Option<int>, today: int): (months: Option<int>)
    ensures months.Some? <==> deadline.Some? && StripTime(today) <= StripTime(deadline.value)
    ensures months.Some? ==> months.value >= 1
  {
    if deadline.None? then None
    else if StripTime(deadline.value) < StripTime(today) then None
    else
      var days := DaysBetween(today, deadline.value);
      var months := -((-days * 100) / 3044);
      Some(if months >= 1 then months else 1)
  }

  function ComputeDeadlineStatus(saved: real, target: real, deadline: Option<int>, today: int): DeadlineStatus {
    if saved >= target && target > 0.0 then Completed
    else if deadline.None? then NoDeadline
    else if StripTime(deadline.value) < StripTime(today) then Overdue
    else OnTrack
  }

  function Suggestion(remaining: real, months: int): int
    requires months >= 1
  {
    if remaining != 0.0 then RoundUp(remaining / months as real) else 0
  }

  function ComputeProgress(target: real, saved: real, currency: Currency, deadline: Option<int>, today: int,
                           rate: Option<Rate>): Progress
  {
    var remaining := Max(0.0, target - saved);
    var months := ComputeMonthsRemaining(deadline, today);
    Progress(
      saved, target, currency,
      if target == 0.0 then 0.0 else RoundHalfUp(saved / target * 100.0 * 10.0) as real / 10.0,
      remaining,
      if rate.Some? then Some(ConvertAmount(remaining, currency, rate.value)) else None,
      currency.Other(),
      rate,
      months,
      if months.Some? then Some(Suggestion(remaining, months.value)) else None,
      ComputeDeadlineStatus(saved, target, deadline, today))
  }

  // ----- The suggestion is the least whole amount that gets there -----

  lemma MonthsAreTight(deadline: int, today: int)
    requires StripTime(today) <= StripTime(deadline)
    ensures var days, m := DaysBetween(today, deadline), ComputeMonthsRemaining(Some(deadline), today).value;
            days * 100 <= m * 3044 && (m > 1 ==> (m - 1) * 3044 < days * 100)
  {
  }

  /** s a month for m months covers the remainder; one unit a month less does not. */
  predicate Tight(s: real, m: real, remaining: real) {
    (s - 1.0) * m < remaining <= s * m
  }

  lemma SuggestionIsTight(remaining: real, months: int)
    requires months >= 1 && remaining > 0.0
    ensures Suggestion(remaining, months) >= 1
    ensures Tight(Suggestion(remaining, months) as real, months as real, remaining)
  {
    var m := months as real;
    QuotientIsPositive(remaining, m);
    RoundedQuotientIsTight(RoundUp(remaining / m) as real, remaining / m, m, remaining);
  }

  lemma RoundedQuotientIsTight(s: real, q: real, m: real, remaining: real)
    requires s - 1.0 < q <= s && m > 0.0 && q * m == remaining
    ensures Tight(s, m, remaining)
  {
    MultiplyMonotone(q, s, m);
    MultiplyStrict(s - 1.0, q, m);
  }

  lemma MultiplyStrict(x: real, y: real, k: real)
    requires x < y && k > 0.0
    ensures x * k < y * k
  {
    assert (y - x) * k > 0.0;
  }

  /** For every goal: the suggestion times the months reaches the remainder, one unit a month less does not. */
  lemma ProgressSuggestionIsTight(target: real, saved: real, currency: Currency, deadline: Option<int>, today: int,
                                  rate: Option<Rate>)
    ensures var p := ComputeProgress(target, saved, currency, deadline, today, rate);
            p.suggestedMonthlyAmount.Some? && p.remainingAmount > 0.0 ==>
              var s, m := p.suggestedMonthlyAmount.value, p.monthsRemaining.value;
              s >= 1 && Tight(s as real, m as real, p.remainingAmount)
  {
    var p := ComputeProgress(target, saved, currency, deadline, today, rate);
    if p.suggestedMonthlyAmount.Some? && p.remainingAmount > 0.0 {
      SuggestionIsTight(p.remainingAmount, p.monthsRemaining.value);
    }
  }

  // ----- The percentage and the status -----

  lemma QuotientAgainst(saved: real, target: real, q: real, share: real)
    requires target > 0.0 && q * target == saved
    ensures q >= share <==> saved >= share * target
  {
    if q >= share {
      MultiplyMonotone(share, q, target);
    } else {
      MultiplyStrict(q, share, target);
    }
  }

  lemma TenthsOf(x: real)
    ensures var shown := RoundHalfUp(x * 10.0) as real / 10.0;
            (shown >= 100.0 <==> x >= 99.95) && (x >= 0.0 ==> -0.05 <= shown - x <= 0.05)
  {
  }

  /** The status in plain words, for any figures: completed once a positive target is saved, else without a deadline,
      else overdue from the day after it. A suggestion is given up to the deadline's day, whatever the status. */
  lemma StatusIff(target: real, saved: real, currency: Currency, deadline: Option<int>, today: int, rate: Option<Rate>)
    ensures var p := ComputeProgress(target, saved, currency, deadline, today, rate);
            var reached := target > 0.0 && saved >= target;
            && (p.deadlineStatus == Completed <==> reached)
            && (p.deadlineStatus == NoDeadline <==> !reached && deadline.None?)
            && (p.deadlineStatus == Overdue <==>
                  !reached && deadline.Some? && DaysBetween(today, deadline.value) < 0)
            && (p.deadlineStatus == OnTrack <==>
                  !reached && deadline.Some? && DaysBetween(today, deadline.value) >= 0)
            && (p.suggestedMonthlyAmount.Some? <==> deadline.Some? && DaysBetween(today, deadline.value) >= 0)
  {
    if deadline.Some? {
      DaysAddUp(today, deadline.value, deadline.value);
    }
  }

  lemma TenthIsNearest(x: real, shown: real)
    requires x >= 0.0 && shown == RoundHalfUp(x * 10.0) as real / 10.0
    ensures -0.05 <= shown - x <= 0.05 && IsWhole(shown * 10.0)
  {
    var n := RoundHalfUp(x * 10.0);
    assert (n as real / 10.0) * 10.0 == n as real;
    assert (n as real).Floor == n;
  }

  lemma ShareIsNonNegative(saved: real, target: real)
    requires target > 0.0 && saved >= 0.0
    ensures saved / target * 100.0 >= 0.0
  {
    if saved > 0.0 {
      QuotientIsPositive(saved, target);
    }
  }

  /** The percentage is the saved share of the target to the nearest tenth, zero for a zero target; what remains is the
      rest of the target, never negative. */
  lemma PercentIsNearestTenth(target: real, saved: real, currency: Currency, deadline: Option<int>, today: int,
                              rate: Option<Rate>)
    requires target >= 0.0 && saved >= 0.0
    ensures var p := ComputeProgress(target, saved, currency, deadline, today, rate);
            && (target > 0.0 ==> -0.05 <= p.progressPercent - saved / target * 100.0 <= 0.05)
            && (target == 0.0 ==> p.progressPercent == 0.0)
            && IsWhole(p.progressPercent * 10.0)
            && p.remainingAmount == (if saved < target then target - saved else 0.0)
            && p.savedAmount == saved && p.targetAmount == target
  {
    var percent := ComputeProgress(target, saved, currency, deadline, today, rate).progressPercent;
    if target > 0.0 {
      ShareIsNonNegative(saved, target);
      TenthIsNearest(saved / target * 100.0, percent);
    } else {
      assert percent * 10.0 == 0.0;
    }
  }

  /** A date's day starts at the last multiple of a day's length. */
  lemma MidnightOfDay(date: int)
    ensures StripTime(date) <= date < StripTime(date) + MS_PER_DAY && StripTime(date) % MS_PER_DAY == 0
  {
  }

  /** A goal is completed exactly when nothing remains of a positive target, and then shows at least 100 percent;
      but 100 percent is already shown from 99.95 percent on. */
  lemma PercentAndStatus(target: real, saved: real, currency: Currency, deadline: Option<int>, today: int,
                         rate: Option<Rate>)
    requires target > 0.0
    ensures var p := ComputeProgress(target, saved, currency, deadline, today, rate);
            && (p.deadlineStatus == Completed <==> p.remainingAmount == 0.0)
            && (p.progressPercent >= 100.0 <==> saved >= 0.9995 * target)
            && (p.deadlineStatus == Completed ==> p.progressPercent >= 100.0)
            && (p.remainingInOtherCurrency.Some? <==> rate.Some?)
            && (rate.Some? ==>
                  var exact := Exchange(p.remainingAmount, currency, rate.value);
                  -0.005 <= p.remainingInOtherCurrency.value - exact <= 0.005)
  {
    var q := saved / target;
    DivideMultiply(saved, target);
    QuotientAgainst(saved, target, q, 0.9995);
    TenthsOf(q * 100.0);
    MultiplyMonotone(0.9995, 1.0, target);
  }

  // ----- Paying the suggestion, recomputed at every payment from that day's month count -----

  function AfterPayment(remaining: real, months: int): real
    requires months >= 1
  {
    Max(0.0, remaining - Suggestion(remaining, months) as real)
  }

  lemma TightAfterPayment(s: real, t: real, n: real, remaining: real)
    requires n > 0.0 && remaining <= s * n + s && Tight(t, n, remaining - s)
    ensures t - 1.0 < s
  {
    if t - 1.0 >= s {
      MultiplyMonotone(s, t - 1.0, n);
    }
  }

  lemma OneMonthFewer(s: real, m: real, n: real, remaining: real)
    requires s >= 0.0 && n >= m - 1.0 && remaining <= s * m
    ensures remaining <= s * n + s
  {
    MultiplyMonotone(m, n + 1.0, s);
    MultiplySum(n, 1.0, s);
  }

  lemma NeverRises(remaining: real, m: int, n: int)
    requires m >= 1 && n >= 1 && n >= m - 1 && remaining >= 0.0
    ensures Suggestion(AfterPayment(remaining, m), n) <= Suggestion(remaining, m)
  {
    var s, left := Suggestion(remaining, m), AfterPayment(remaining, m);
    if remaining > 0.0 {
      SuggestionIsTight(remaining, m);
    }
    if left > 0.0 {
      SuggestionIsTight(left, n);
      OneMonthFewer(s as real, m as real, n as real, remaining);
      TightAfterPayment(s as real, Suggestion(left, n) as real, n as real, remaining);
    }
  }

  /** A remainder of m units is one a month; after one payment m - 1 units are left for fewer months than that. */
  lemma RisesAfterASkippedMonth(m: int, n: int)
    requires 1 <= n < m - 1
    ensures Suggestion(m as real, m) == 1 && Suggestion(AfterPayment(m as real, m), n) >= 2
  {
    SuggestionIsTight(m as real, m);
    var s := Suggestion(m as real, m);
    if s >= 2 {
      MultiplyMonotone(1.0, s as real - 1.0, m as real);
    }
    SuggestionIsTight((m - 1) as real, n);
    var t := Suggestion((m - 1) as real, n);
    assert t == 1 ==> t as real * n as real == n as real;
  }

  /** The suggestion for a goal on a day, whatever its currency and the rate. */
  function SuggestedOn(target: real, saved: real, deadline: Option<int>, today: int): (suggested: Option<int>)
    ensures forall currency, rate ::
              ComputeProgress(target, saved, currency, deadline, today, rate).suggestedMonthlyAmount == suggested
  {
    ComputeProgress(target, saved, JPY, deadline, today, None).suggestedMonthlyAmount
  }

  /** Whatever the goal: once the first day's suggestion is paid, the later day's is not larger. */
  ghost predicate NeverRisesBetween(deadline: int, today: int, later: int)
    requires StripTime(today) <= StripTime(deadline) && StripTime(later) <= StripTime(deadline)
  {
    forall target: real, saved: real :: DoesNotRise(target, saved, deadline, today, later)
  }

  predicate DoesNotRise(target: real, saved: real, deadline: int, today: int, later: int)
    requires StripTime(today) <= StripTime(deadline) && StripTime(later) <= StripTime(deadline)
  {
    var s := SuggestedOn(target, saved, Some(deadline), today).value;
    SuggestedOn(target, saved + s as real, Some(deadline), later).value <= s
  }

  function MonthsLeft(deadline: int, today: int): (m: int)
    requires StripTime(today) <= StripTime(deadline)
    ensures m >= 1
  {
    ComputeMonthsRemaining(Some(deadline), today).value
  }

  /** For every goal alike, the suggestion does not rise from one day to another exactly when the month count
      has dropped by at most one in between. */
  lemma NeverRisesIff(deadline: int, today: int, later: int)
    requires StripTime(today) <= StripTime(deadline) && StripTime(later) <= StripTime(deadline)
    ensures NeverRisesBetween(deadline, today, later)
            <==> MonthsLeft(deadline, later) >= MonthsLeft(deadline, today) - 1
  {
    var m, n := MonthsLeft(deadline, today), MonthsLeft(deadline, later);
    if n >= m - 1 {
      forall target: real, saved: real ensures DoesNotRise(target, saved, deadline, today, later) {
        NeverRises(Max(0.0, target - saved), m, n);
      }
    } else {
      RisesAfterASkippedMonth(m, n);
      assert !DoesNotRise(m as real, 0.0, deadline, today, later);
    }
  }

  /** Whatever the goal and its deadline: the suggestion does not rise exactly when the days are at most 30 apart. */
  lemma NeverRisesWithinThirtyDaysIff(today: int, later: int)
    requires StripTime(today) <= StripTime(later)
    ensures (forall deadline :: StripTime(later) <= StripTime(deadline) ==> NeverRisesBetween(deadline, today, later))
            <==> DaysBetween(today, later) <= 30
  {
    if DaysBetween(today, later) <= 30 {
      forall deadline | StripTime(later) <= StripTime(deadline) ensures NeverRisesBetween(deadline, today, later) {
        DaysAddUp(today, later, deadline);
        NeverRisesIff(deadline, today, later);
      }
    } else {
      var deadline := StripTime(later) + 30 * MS_PER_DAY;
      DaysAddUp(today, later, deadline);
      NeverRisesIff(deadline, today, later);
      assert !NeverRisesBetween(deadline, today, later);
    }
  }

  lemma DaysAddUp(today: int, later: int, deadline: int)
    ensures DaysBetween(today, deadline) == DaysBetween(today, later) + DaysBetween(later, deadline)
    ensures DaysBetween(today, later) >= 0 <==> StripTime(today) <= StripTime(later)
  {
  }

  lemma HundredThenTwoHundred()
    ensures Suggestion(300.0, 3) == 100 && Suggestion(200.0, 1) == 200
  {
    SuggestionIsTight(300.0, 3);
    SuggestionIsTight(200.0, 1);
  }

  /** Two months and a day before its deadline a goal of 300 asks for 100. Paid, and 31 days later, it asks for 200. */
  lemma SuggestionCanRise(deadline: int, today: int, later: int)
    requires DaysBetween(today, deadline) == 61 && DaysBetween(later, deadline) == 30
    ensures SuggestedOn(300.0, 0.0, Some(deadline), today) == Some(100)
    ensures SuggestedOn(300.0, 100.0, Some(deadline), later) == Some(200)
  {
    HundredThenTwoHundred();
    DaysAddUp(today, deadline, deadline);
    DaysAddUp(later, deadline, deadline);
    assert MonthsLeft(deadline, today) == 3 && MonthsLeft(deadline, later) == 1;
  }

  // ----- Following the plan on a list of payment days -----

  /** What is saved after paying each day's own suggestion; a day past the deadline has none. */
  function SavedAfter(target: real, saved: real, deadline: Option<int>, days: seq<int>): real
    decreases |days|
  {
    if days == [] then saved
    else SavedAfter(target, saved + SuggestedOn(target, saved, deadline, days[0]).GetOr(0) as real, deadline, days[1..])
  }

  /** The day lies at most 30 days before the deadline, and not past it. */
  predicate InLastMonth(deadline: Option<int>, day: int) {
    deadline.Some? && 0 <= DaysBetween(day, deadline.value) <= 30
  }

  lemma LastMonthIff(deadline: Option<int>, day: int)
    ensures InLastMonth(deadline, day) <==> ComputeMonthsRemaining(deadline, day) == Some(1)
  {
    if deadline.Some? {
      DaysAddUp(day, deadline.value, deadline.value);
    }
  }

  lemma {:induction false} SavedNeverFalls(target: real, saved: real, deadline: Option<int>, days: seq<int>)
    ensures SavedAfter(target, saved, deadline, days) >= saved
    decreases |days|
  {
    if days != [] {
      var s := SuggestedOn(target, saved, deadline, days[0]);
      var remaining := Max(0.0, target - saved);
      if s.Some? && remaining > 0.0 {
        SuggestionIsTight(remaining, MonthsLeft(deadline.value, days[0]));
      }
      SavedNeverFalls(target, saved + s.GetOr(0) as real, deadline, days[1..]);
    }
  }

  lemma {:induction false} PayingInTheLastMonthReaches(target: real, saved: real, deadline: Option<int>, days: seq<int>,
                                                       k: nat)
    requires k < |days| && InLastMonth(deadline, days[k])
    ensures SavedAfter(target, saved, deadline, days) >= target
    decreases |days|
  {
    var paid := saved + SuggestedOn(target, saved, deadline, days[0]).GetOr(0) as real;
    if k > 0 {
      PayingInTheLastMonthReaches(target, paid, deadline, days[1..], k - 1);
    } else {
      LastMonthIff(deadline, days[0]);
      if target > saved {
        SuggestionIsTight(target - saved, 1);
      }
      SavedNeverFalls(target, paid, deadline, days[1..]);
    }
  }

  /** A remainder that n payments of less than a half and a unit each cannot use up. */
  function TooMuchFor(n: nat): real {
    if n == 0 then 1.0 else 2.0 * TooMuchFor(n - 1) + 2.0
  }

  lemma LessThanHalfAndOne(s: real, m: real, remaining: real)
    requires s >= 1.0 && m >= 2.0 && Tight(s, m, remaining)
    ensures s <= remaining / 2.0 + 1.0
  {
    MultiplyMonotone(2.0, m, s - 1.0);
  }

  lemma EarlierPaymentLeaves(target: real, saved: real, deadline: Option<int>, day: int, rest: real)
    requires !InLastMonth(deadline, day) && rest >= 1.0 && target - saved >= 2.0 * rest + 2.0
    ensures target - (saved + SuggestedOn(target, saved, deadline, day).GetOr(0) as real) >= rest
  {
    var s := SuggestedOn(target, saved, deadline, day);
    LastMonthIff(deadline, day);
    if s.Some? {
      var m := MonthsLeft(deadline.value, day);
      SuggestionIsTight(target - saved, m);
      LessThanHalfAndOne(s.value as real, m as real, target - saved);
    }
  }

  lemma {:induction false} EarlierPaymentsFallShort(target: real, saved: real, deadline: Option<int>, days: seq<int>)
    requires forall k :: 0 <= k < |days| ==> !InLastMonth(deadline, days[k])
    requires target - saved >= TooMuchFor(|days|)
    ensures SavedAfter(target, saved, deadline, days) < target
    decreases |days|
  {
    if days != [] {
      TooMuchIsPositive(|days| - 1);
      EarlierPaymentLeaves(target, saved, deadline, days[0], TooMuchFor(|days| - 1));
      var s := SuggestedOn(target, saved, deadline, days[0]);
      EarlierPaymentsFallShort(target, saved + s.GetOr(0) as real, deadline, days[1..]);
    }
  }

  lemma {:induction false} TooMuchIsPositive(n: nat)
    ensures TooMuchFor(n) >= 1.0
  {
    if n > 0 {
      TooMuchIsPositive(n - 1);
    }
  }

  /** Paying every suggestion reaches the target of every goal with this deadline exactly when some payment falls
      within the last 30 days before it. */
  lemma PlanReachesTheTargetIff(deadline: Option<int>, days: seq<int>)
    ensures (forall target: real, saved: real :: SavedAfter(target, saved, deadline, days) >= target)
            <==> exists k :: 0 <= k < |days| && InLastMonth(deadline, days[k])
  {
    if k :| 0 <= k < |days| && InLastMonth(deadline, days[k]) {
      forall target: real, saved: real ensures SavedAfter(target, saved, deadline, days) >= target {
        PayingInTheLastMonthReaches(target, saved, deadline, days, k);
      }
    } else {
      EarlierPaymentsFallShort(TooMuchFor(|days|), 0.0, deadline, days);
    }
  }
}
