/** Currency conversion: the 2-decimal one that freezes ledger entries and the whole-unit one for display. */
module Conversion {
  import opened Decimals

  datatype Currency = JPY | VND {
    function Other(): Currency {
      if this == JPY then VND else JPY
    }
  }

  /** A yen-to-dong rate; the provider client accepts only positive ones. */
  type Rate = r: real | r > 0.0 witness 1.0

  /** The exact value of a conversion. */
  function Exchange(amount: real, from: Currency, rate: Rate): real
  {
    if from == JPY then amount * rate else amount / rate
  }

  function ConvertAmount(amount: real, from: Currency, rate: Rate): real
  {
    ToCents(Exchange(amount, from, rate))
  }

  function Convert(amount: real, from: Currency, to: Currency, rate: Option<Rate>): Option<int>
  {
    if from == to then Some(RoundHalfUp(amount))
    else if rate.None? then None
    else Some(RoundHalfUp(Exchange(amount, from, rate.value)))
  }

  /** One conversion step on whole units of a grid: n units of `from`, rounded to units of the other side. */
  function ConvertUnits(n: int, from: Currency, rate: Rate): int
  {
    RoundHalfUp(Exchange(n as real, from, rate))
  }

  lemma ExchangeMonotone(a: real, b: real, from: Currency, rate: Rate)
    requires a <= b
    ensures Exchange(a, from, rate) <= Exchange(b, from, rate)
  {
    MultiplyMonotone(a, b, rate);
    DivideMonotone(a, b, rate);
  }

  /** Neither conversion ever reverses the order of two amounts. */
  lemma ConversionMonotone(a: real, b: real, from: Currency, rate: Rate)
    requires a <= b
    ensures ConvertAmount(a, from, rate) <= ConvertAmount(b, from, rate)
    ensures Convert(a, from, from.Other(), Some(rate)).value <= Convert(b, from, from.Other(), Some(rate)).value
  {
    ExchangeMonotone(a, b, from, rate);
    ToCentsMonotone(Exchange(a, from, rate), Exchange(b, from, rate));
    HalfUpMonotone(Exchange(a, from, rate), Exchange(b, from, rate));
  }

  /** A conversion is unavailable exactly when the currencies differ and there is no rate; otherwise the whole amount
      is the nearest to the exact one, and the 2-decimal amount is off by at most half a hundredth. */
  lemma ConversionIsNearest(amount: real, from: Currency, to: Currency, rate: Option<Rate>)
    ensures Convert(amount, from, to, rate).None? <==> from != to && rate.None?
    ensures Convert(amount, from, to, rate).Some? ==>
              var exact := if from == to then amount else Exchange(amount, from, rate.value);
              -0.5 <= Convert(amount, from, to, rate).value as real - exact <= 0.5
    ensures rate.Some? ==>
              -0.005 <= ConvertAmount(amount, from, rate.value) - Exchange(amount, from, rate.value) <= 0.005
  {
  }

  lemma ConvertUnitsMonotone(m: int, n: int, from: Currency, rate: Rate)
    requires m <= n
    ensures ConvertUnits(m, from, rate) <= ConvertUnits(n, from, rate)
  {
    ExchangeMonotone(m as real, n as real, from, rate);
    HalfUpMonotone(Exchange(m as real, from, rate), Exchange(n as real, from, rate));
  }

  // ----- Round trips -----

  ghost predicate YenRoundTrips(n: int, rate: Rate)
  {
    ConvertUnits(ConvertUnits(n, JPY, rate), VND, rate) == n
  }

  lemma NearestUnit(x: real, n: int)
    requires n as real - 0.5 < x < n as real + 0.5
    ensures RoundHalfUp(x) == n
  {
  }

  /** Dividing a product off by at most a half brings it back to within a half. */
  lemma BackWithinHalf(x: real, product: real, m: real, rate: real, back: real)
    requires rate > 1.0 && x * rate == product && back * rate == m && -0.5 <= m - product <= 0.5
    ensures x - 0.5 < back < x + 0.5
  {
    MultiplySum(back, -x, rate);
    SmallFactor(back - x, rate, m - product);
  }

  lemma SmallFactor(d: real, rate: real, product: real)
    requires rate > 1.0 && d * rate == product && -0.5 <= product <= 0.5
    ensures -0.5 < d < 0.5
  {
    if d >= 0.5 {
      MultiplyMonotone(0.5, d, rate);
    }
    if d <= -0.5 {
      MultiplyMonotone(d, -0.5, rate);
    }
  }

  lemma YenRoundTripAboveParity(n: int, rate: Rate)
    requires rate > 1.0
    ensures YenRoundTrips(n, rate)
  {
    var there := Exchange(n as real, JPY, rate);
    var m := ConvertUnits(n, JPY, rate);
    UnitError(n, JPY, rate, there);
    var back := Exchange(m as real, VND, rate);
    DivideMultiply(m as real, rate);
    BackWithinHalf(n as real, there, m as real, rate, back);
    NearestUnit(back, n);
  }

  lemma YenRoundTripAtParity(n: int)
    ensures YenRoundTrips(n, 1.0)
  {
    HalfUpOfInteger(n);
    assert Exchange(n as real, JPY, 1.0) == n as real;
    assert Exchange(n as real, VND, 1.0) == n as real;
  }

  lemma YenUnitsRoundTrip(n: int, rate: Rate)
    requires rate >= 1.0
    ensures YenRoundTrips(n, rate)
  {
    if rate == 1.0 {
      YenRoundTripAtParity(n);
    } else {
      YenRoundTripAboveParity(n, rate);
    }
  }

  /** Below rate 1 there are fewer dong than yen, so some yen amount must come back changed:
      if none up to n did, the dong values would climb by at least one a step and outrun n * rate. */
  lemma {:induction false} RoundTripsForceGrowth(n: nat, rate: Rate)
    requires forall k: nat :: k <= n ==> YenRoundTrips(k, rate)
    ensures ConvertUnits(n, JPY, rate) >= n
  {
    if n == 0 {
      HalfUpOfInteger(0);
    } else {
      RoundTripsForceGrowth(n - 1, rate);
      ConvertUnitsMonotone(n - 1, n, JPY, rate);
      assert YenRoundTrips(n, rate) && YenRoundTrips(n - 1, rate);
    }
  }

  lemma LowRateLosesSomeYen(rate: Rate) returns (n: nat)
    requires rate < 1.0
    ensures !YenRoundTrips(n, rate)
  {
    var gap := 1.0 - rate;
    var bound: nat := (1.0 / gap).Floor + 1;
    DivideMultiply(1.0, gap);
    MultiplyMonotone(1.0 / gap, bound as real, gap);
    assert bound as real * rate == bound as real - bound as real * gap;
    if forall k: nat :: k <= bound ==> YenRoundTrips(k, rate) {
      RoundTripsForceGrowth(bound, rate);
      assert false;
    }
    n :| n <= bound && !YenRoundTrips(n, rate);
  }

  /** Yen to dong and back is the identity on every whole amount exactly when a yen is worth at least a dong. */
  lemma YenRoundTripIff(rate: Rate)
    ensures (forall n: int :: YenRoundTrips(n, rate)) <==> rate >= 1.0
  {
    if rate >= 1.0 {
      forall n: int ensures YenRoundTrips(n, rate) { YenUnitsRoundTrip(n, rate); }
    } else {
      var n := LowRateLosesSomeYen(rate);
    }
  }

  /** The same identity for the 2-decimal conversion on the 0.01 grid. */
  lemma CentsComeBack(amount: real, rate: Rate)
    requires rate >= 1.0 && IsCents(amount)
    ensures ConvertAmount(ConvertAmount(amount, JPY, rate), VND, rate) == amount
  {
    var n := (amount * 100.0).Floor;
    CentsToUnits(amount, n, JPY, rate);
    var there := ConvertAmount(amount, JPY, rate);
    CentsToUnits(there, ConvertUnits(n, JPY, rate), VND, rate);
    YenUnitsRoundTrip(n, rate);
  }

  lemma UnitsToCents(n: int)
    ensures n as real / 100.0 * 100.0 == n as real && IsCents(n as real / 100.0)
  {
    assert (n as real).Floor == n;
  }

  ghost predicate CentsRoundTrip(rate: Rate) {
    forall amount :: IsCents(amount) ==> ConvertAmount(ConvertAmount(amount, JPY, rate), VND, rate) == amount
  }

  /** Below rate 1 some amount of whole hundredths comes back changed. */
  lemma LowRateLosesSomeCents(rate: Rate)
    requires rate < 1.0
    ensures !CentsRoundTrip(rate)
  {
    var n := LowRateLosesSomeYen(rate);
    var amount := n as real / 100.0;
    UnitsToCents(n);
    var there := ConvertAmount(amount, JPY, rate);
    CentsToUnits(amount, n, JPY, rate);
    CentsToUnits(there, ConvertUnits(n, JPY, rate), VND, rate);
    assert ConvertAmount(there, VND, rate) != amount;
  }

  /** The 2-decimal conversion from yen and back is the identity on the whole 0.01 grid exactly at rates from 1 up. */
  lemma CentsRoundTripIff(rate: Rate)
    ensures CentsRoundTrip(rate) <==> rate >= 1.0
  {
    if rate >= 1.0 {
      forall amount | IsCents(amount)
        ensures ConvertAmount(ConvertAmount(amount, JPY, rate), VND, rate) == amount
      {
        CentsComeBack(amount, rate);
      }
    } else {
      LowRateLosesSomeCents(rate);
    }
  }

  /** Converting an amount of n hundredths is converting n units, a hundred times smaller. */
  lemma CentsToUnits(amount: real, n: int, from: Currency, rate: Rate)
    requires amount * 100.0 == n as real
    ensures ConvertAmount(amount, from, rate) * 100.0 == ConvertUnits(n, from, rate) as real
  {
    if from == JPY {
      ScaledProduct(amount, rate);
    } else {
      ScaledQuotient(amount, rate);
    }
    CentsOf(Exchange(amount, from, rate), Exchange(n as real, from, rate));
  }

  lemma CentsOf(x: real, units: real)
    requires x * 100.0 == units
    ensures ToCents(x) == RoundHalfUp(units) as real / 100.0
  {
  }

  lemma ScaledProduct(a: real, k: real)
    ensures a * k * 100.0 == a * 100.0 * k
  {
  }

  lemma ScaledQuotient(a: real, k: real)
    requires k > 0.0
    ensures a / k * 100.0 == a * 100.0 / k
  {
    DivideMultiply(a, k);
    DivideMultiply(a * 100.0, k);
    var p, q := a / k * 100.0, a * 100.0 / k;
    assert p * k == q * k by { ScaledProduct(a / k, k); }
    DivideMultiply(p, k);
    DivideMultiply(q, k);
  }

  /** Dong to yen and back is off by at most half the rate plus half a dong. */
  lemma DongRoundTripBound(n: int, rate: Rate)
    ensures var back := ConvertUnits(ConvertUnits(n, VND, rate), JPY, rate) as real;
            -(rate / 2.0 + 0.5) <= back - n as real <= rate / 2.0 + 0.5
  {
    var exact := Exchange(n as real, VND, rate);
    DividedBack(n as real, rate);
    UnitError(n, VND, rate, exact);
    BackToDong(n as real, exact, ConvertUnits(n, VND, rate), rate);
  }

  lemma BackToDong(n: real, exact: real, y: int, rate: Rate)
    requires exact * rate == n && -0.5 <= y as real - exact <= 0.5
    ensures -(rate / 2.0 + 0.5) <= ConvertUnits(y, JPY, rate) as real - n <= rate / 2.0 + 0.5
  {
    var there := Exchange(y as real, JPY, rate);
    UnitError(y, JPY, rate, there);
    AccumulatedError(n, exact, y as real, there, ConvertUnits(y, JPY, rate) as real, rate);
  }

  lemma DividedBack(amount: real, rate: Rate)
    ensures Exchange(amount, VND, rate) * rate == amount
  {
    DivideMultiply(amount, rate);
  }

  lemma UnitError(n: int, from: Currency, rate: Rate, exact: real)
    requires exact == Exchange(n as real, from, rate)
    ensures -0.5 <= ConvertUnits(n, from, rate) as real - exact <= 0.5
  {
  }

  lemma AccumulatedError(n: real, exact: real, y: real, there: real, back: real, rate: real)
    requires rate > 0.0 && exact * rate == n && y * rate == there
    requires -0.5 <= y - exact <= 0.5 && -0.5 <= back - there <= 0.5
    ensures -(rate / 2.0 + 0.5) <= back - n <= rate / 2.0 + 0.5
  {
    ScaledError(y, exact, rate, n);
  }

  lemma ScaledError(y: real, exact: real, rate: real, product: real)
    requires -0.5 <= y - exact <= 0.5 && rate > 0.0 && exact * rate == product
    ensures product - rate / 2.0 <= y * rate <= product + rate / 2.0
  {
    MultiplyMonotone(y, exact + 0.5, rate);
    MultiplyMonotone(exact - 0.5, y, rate);
    MultiplySum(exact, 0.5, rate);
    MultiplySum(exact, -0.5, rate);
  }

  lemma MultiplySum(x: real, y: real, k: real)
    ensures (x + y) * k == x * k + y * k
  {
  }
}
