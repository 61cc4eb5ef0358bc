/**
 * PHP's `round($x, $d)` over exact reals: round half away from zero at `d`
 * decimal places (PHP's pre-rounding exists only to hide binary float error,
 * which a `real` does not have).
 */
module PhpMath {

  function Pow10(d: nat): (r: nat)
    ensures r >= 1
  {
    if d == 0 then 1 else 10 * Pow10(d - 1)
  }

  /** 10^d as a real. */
  function Scale(d: nat): (s: real)
    ensures s >= 1.0
  {
    Pow10(d) as real
  }

  predicate Integral(v: real) {
    v.Floor as real == v
  }

  /** `r` has no more than `d` decimals: `r * 10^d` is an integer. */
  predicate HasDecimals(r: real, d: nat) {
    Integral(r * Scale(d))
  }

  function RoundNonNegative(x: real, scale: real): real
    requires x >= 0.0 && scale >= 1.0
  {
    ((x * scale + 0.5).Floor as real) / scale
  }

  function Round(x: real, d: nat): real {
    if x >= 0.0 then RoundNonNegative(x, Scale(d)) else -RoundNonNegative(-x, Scale(d))
  }

  // ---------------------------------------------------------------- arithmetic steps

  lemma ScaleOrder(a: real, b: real, s: real)
    requires s > 0.0
    ensures a <= b <==> a * s <= b * s
  {
    if a <= b {
      assert (b - a) * s >= 0.0;
    }
    if a * s <= b * s {
      assert (b - a) * s >= 0.0;
    }
  }

  /** The integer `k` that RoundNonNegative divides by the scale. */
  lemma RoundNonNegativeUnits(x: real, scale: real) returns (k: int)
    requires x >= 0.0 && scale >= 1.0
    ensures k >= 0 && RoundNonNegative(x, scale) * scale == k as real
    ensures k as real <= x * scale + 0.5 < k as real + 1.0
  {
    k := (x * scale + 0.5).Floor;
    assert RoundNonNegative(x, scale) == k as real / scale;
  }

  lemma RoundNonNegativeBounds(x: real, scale: real)
    requires x >= 0.0 && scale >= 1.0
    ensures 0.0 <= RoundNonNegative(x, scale)
    ensures x - 0.5 / scale <= RoundNonNegative(x, scale) <= x + 0.5 / scale
  {
    var k := RoundNonNegativeUnits(x, scale);
    var r := RoundNonNegative(x, scale);
    assert (0.5 / scale) * scale == 0.5;
    assert (x - 0.5 / scale) * scale == x * scale - (0.5 / scale) * scale;
    assert (x + 0.5 / scale) * scale == x * scale + (0.5 / scale) * scale;
    ScaleOrder(x - 0.5 / scale, r, scale);
    ScaleOrder(r, x + 0.5 / scale, scale);
    ScaleOrder(0.0, r, scale);
  }

  lemma IntegralOfInt(v: real, k: int)
    requires v == k as real
    ensures Integral(v)
  {
  }

  lemma RoundNonNegativeMonotone(x: real, y: real, scale: real)
    requires 0.0 <= x <= y && scale >= 1.0
    ensures RoundNonNegative(x, scale) <= RoundNonNegative(y, scale)
  {
    ScaleOrder(x, y, scale);
    var a := RoundNonNegativeUnits(x, scale);
    var b := RoundNonNegativeUnits(y, scale);
    assert a <= b;
    ScaleOrder(RoundNonNegative(x, scale), RoundNonNegative(y, scale), scale);
  }

  // ---------------------------------------------------------------- properties of Round

  /** Rounding is within half a unit of the last kept decimal and keeps the sign. */
  lemma RoundError(x: real, d: nat)
    ensures x - 0.5 / Scale(d) <= Round(x, d) <= x + 0.5 / Scale(d)
    ensures x >= 0.0 ==> Round(x, d) >= 0.0
    ensures x <= 0.0 ==> Round(x, d) <= 0.0
  {
    if x >= 0.0 {
      RoundNonNegativeBounds(x, Scale(d));
    } else {
      RoundNonNegativeBounds(-x, Scale(d));
    }
  }

  /** A rounded value has at most `d` decimals. */
  lemma RoundHasDecimals(x: real, d: nat)
    ensures HasDecimals(Round(x, d), d)
  {
    if x >= 0.0 {
      var k := RoundNonNegativeUnits(x, Scale(d));
      IntegralOfInt(Round(x, d) * Scale(d), k);
    } else {
      var k := RoundNonNegativeUnits(-x, Scale(d));
      assert Round(x, d) * Scale(d) == (-k) as real;
      IntegralOfInt(Round(x, d) * Scale(d), -k);
    }
  }

  /** Rounding never reverses the order of two values. */
  lemma RoundMonotone(x: real, y: real, d: nat)
    requires x <= y
    ensures Round(x, d) <= Round(y, d)
  {
    if 0.0 <= x {
      RoundNonNegativeMonotone(x, y, Scale(d));
    } else if y < 0.0 {
      RoundNonNegativeMonotone(-y, -x, Scale(d));
    } else {
      RoundError(x, d);
      RoundError(y, d);
    }
  }

  lemma RoundNonNegativeKeeps(x: real, scale: real, k: int)
    requires x >= 0.0 && scale >= 1.0 && x * scale == k as real
    ensures RoundNonNegative(x, scale) == x
  {
    assert (x * scale + 0.5).Floor == k;
    assert x == k as real / scale;
  }

  /** A value that already has `d` decimals is left as it is. */
  lemma RoundKeepsDecimals(x: real, d: nat)
    requires HasDecimals(x, d)
    ensures Round(x, d) == x
  {
    var k := (x * Scale(d)).Floor;
    if x >= 0.0 {
      RoundNonNegativeKeeps(x, Scale(d), k);
    } else {
      assert (-x) * Scale(d) == (-k) as real;
      RoundNonNegativeKeeps(-x, Scale(d), -k);
    }
  }
}
