/** Exact decimal arithmetic: the three rounding modes the services use.
    `real` stands for decimal.js values without its significant-digit limit. */
module Decimals {

  datatype Option<+T> = None | Some(value: T) {
    function GetOr(default: T): T {
      match this
      case Some(v) => v
      case None => default
    }
  }

  /** Toward zero (ROUND_DOWN). */
  function RoundDown(x: real): (n: int)
    ensures x >= 0.0 ==> 0 <= n && n as real <= x < n as real + 1.0
    ensures x <= 0.0 ==> n <= 0 && n as real - 1.0 < x <= n as real
  {
    if x >= 0.0 then x.Floor else -((-x).Floor)
  }

  /** Away from zero (ROUND_UP). */
  function RoundUp(x: real): (n: int)
    ensures x >= 0.0 ==> n as real - 1.0 < x <= n as real
    ensures x <= 0.0 ==> n as real <= x < n as real + 1.0
  {
    if x >= 0.0 then -((-x).Floor) else x.Floor
  }

  /** To the nearest unit, ties away from zero (ROUND_HALF_UP, the library's default mode). */
  function RoundHalfUp(x: real): (n: int)
    ensures x >= 0.0 ==> n as real - 0.5 <= x < n as real + 0.5
    ensures x <= 0.0 ==> n as real - 0.5 < x <= n as real + 0.5
  {
    if x >= 0.0 then (x + 0.5).Floor else -((0.5 - x).Floor)
  }

  predicate IsWhole(x: real) {
    x.Floor as real == x
  }

  lemma RoundUpOfInteger(n: int)
    ensures RoundUp(n as real) == n
  {
  }

  lemma RoundUpFixesWhole(x: real)
    requires IsWhole(x)
    ensures RoundUp(x) as real == x
  {
    RoundUpOfInteger(x.Floor);
  }

  /** Half up to two decimals, the scale of a money column. */
  function ToCents(x: real): (r: real)
    ensures IsCents(r) && -0.005 <= r - x <= 0.005
  {
    RoundHalfUp(x * 100.0) as real / 100.0
  }

  predicate IsCents(x: real) {
    (x * 100.0).Floor as real == x * 100.0
  }

  /** Half up to eight decimals, the scale of a rate column. */
  function ToRateScale(x: real): (r: real)
    ensures IsRateScale(r) && -0.000000005 <= r - x <= 0.000000005
  {
    RoundHalfUp(x * 100000000.0) as real / 100000000.0
  }

  predicate IsRateScale(x: real) {
    (x * 100000000.0).Floor as real == x * 100000000.0
  }

  lemma HalfUpOfInteger(n: int)
    ensures RoundHalfUp(n as real) == n
  {
  }

  lemma HalfUpMonotone(x: real, y: real)
    requires x <= y
    ensures RoundHalfUp(x) <= RoundHalfUp(y)
  {
  }

  lemma ToCentsFixesCents(x: real)
    ensures ToCents(x) == x <==> IsCents(x)
  {
    if IsCents(x) {
      HalfUpOfInteger((x * 100.0).Floor);
    }
  }

  lemma ToCentsMonotone(x: real, y: real)
    requires x <= y
    ensures ToCents(x) <= ToCents(y)
  {
    HalfUpMonotone(x * 100.0, y * 100.0);
  }

  lemma ToRateScaleFixesRateScale(x: real)
    ensures ToRateScale(x) == x <==> IsRateScale(x)
  {
    if IsRateScale(x) {
      HalfUpOfInteger((x * 100000000.0).Floor);
    }
  }

  lemma ToRateScaleMonotone(x: real, y: real)
    requires x <= y
    ensures ToRateScale(x) <= ToRateScale(y)
  {
    HalfUpMonotone(x * 100000000.0, y * 100000000.0);
  }

  lemma MultiplyMonotone(x: real, y: real, k: real)
    requires x <= y && k >= 0.0
    ensures x * k <= y * k
  {
    assert (y - x) * k >= 0.0;
  }

  lemma DivideMonotone(x: real, y: real, k: real)
    requires x <= y && k > 0.0
    ensures x / k <= y / k
  {
  }

  lemma DivideMultiply(x: real, k: real)
    requires k != 0.0
    ensures x / k * k == x
    ensures x * k / k == x
  {
  }

  lemma QuotientIsPositive(x: real, k: real)
    requires x > 0.0 && k > 0.0
    ensures x / k > 0.0 && x / k * k == x
  {
    DivideMultiply(x, k);
    if x / k <= 0.0 {
      MultiplyMonotone(x / k, 0.0, k);
    }
  }
}
