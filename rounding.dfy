/**
 * Rounding of the computed metrics to a number of decimal places.
 *
 * Every metric of a stock and the all-share index are passed through
 * Python 2's `round(x, precision)`, which rounds to the nearest multiple of
 * 10^-precision and sends halves away from zero. This module models that on
 * exact reals; binary floating point is not modelled.
 */
module Rounding {

  /** 10 to the power p. */
  function Pow10(p: nat): (r: nat)
    ensures r >= 1
    ensures p > 0 ==> r >= 10
  {
    if p == 0 then 1 else 10 * Pow10(p - 1)
  }

  /** The scale 10^p as a real. */
  function Scale(p: nat): (s: real)
    ensures s >= 1.0
  {
    Pow10(p) as real
  }

  function Abs(x: real): (r: real)
    ensures r >= 0.0 && (r == x || r == -x)
  {
    if x < 0.0 then -x else x
  }

  /** x has at most p digits after the decimal point. */
  ghost predicate HasDigits(x: real, p: nat) {
    (x * Scale(p)).Floor as real == x * Scale(p)
  }

  /** r is a rounding of x to p decimal places: it has at most p decimals and
      lies within half a unit of the last place from x. */
  ghost predicate RoundsTo(r: real, x: real, p: nat) {
    HasDigits(r, p) && Abs(r - x) <= 0.5 / Scale(p)
  }

  /** Dividing by a positive scale and multiplying back is the identity. */
  lemma DivMulCancel(a: real, s: real)
    requires s > 0.0
    ensures (a / s) * s == a
  {
  }

  /** Multiplying by a positive scale and dividing back is the identity. */
  lemma MulDivCancel(a: real, s: real)
    requires s > 0.0
    ensures (a * s) / s == a
  {
  }

  /** Dividing by a positive scale keeps order. */
  lemma DivMonotone(a: real, b: real, s: real)
    requires s > 0.0 && a <= b
    ensures a / s <= b / s
  {
  }

  /** f/s - x == (f - x*s)/s for a positive scale s. */
  lemma DivSub(f: real, x: real, s: real)
    requires s > 0.0
    ensures f / s - x == (f - x * s) / s
  {
    DivMulCancel(f / s - x, s);
  }

  /** Within half a unit: if f is within 1/2 of x*s then f/s is within 1/(2s) of x. */
  lemma ScaledBound(f: real, x: real, s: real)
    requires s > 0.0
    requires x * s - 0.5 <= f <= x * s + 0.5
    ensures Abs(f / s - x) <= 0.5 / s
  {
    var d := f - x * s;
    DivSub(f, x, s);
    DivMonotone(d, 0.5, s);
    DivMonotone(-0.5, d, s);
    assert (-0.5) / s == -(0.5 / s);
  }

  /** The rounding of x at scale s, halves away from zero. */
  function RoundAt(x: real, s: real): (r: real)
    requires s > 0.0
  {
    if x >= 0.0 then ((x * s + 0.5).Floor as real) / s
    else -(((-x * s + 0.5).Floor as real) / s)
  }

  lemma RoundAtBound(x: real, s: real)
    requires s > 0.0
    ensures Abs(RoundAt(x, s) - x) <= 0.5 / s
  {
    if x >= 0.0 {
      var f := (x * s + 0.5).Floor as real;
      ScaledBound(f, x, s);
    } else {
      var f := (-x * s + 0.5).Floor as real;
      ScaledBound(f, -x, s);
      assert -(f / s) - x == -(f / s - (-x));
    }
  }

  lemma RoundAtSign(x: real, s: real)
    requires s > 0.0
    ensures x >= 0.0 ==> RoundAt(x, s) >= 0.0
    ensures x <= 0.0 ==> RoundAt(x, s) <= 0.0
  {
    if x >= 0.0 {
      DivMonotone(0.0, (x * s + 0.5).Floor as real, s);
    } else {
      DivMonotone(0.0, (-x * s + 0.5).Floor as real, s);
    }
  }

  /** The rounding at scale s is a whole number of units 1/s. */
  lemma RoundAtDigits(x: real, s: real)
    requires s > 0.0
    ensures (RoundAt(x, s) * s).Floor as real == RoundAt(x, s) * s
  {
    if x >= 0.0 {
      RoundUpDigits(x, s);
    } else {
      RoundDownDigits(x, s);
    }
  }

  /** RoundAtDigits for a non-negative x. */
  lemma RoundUpDigits(x: real, s: real)
    requires s > 0.0 && x >= 0.0
    ensures (RoundAt(x, s) * s).Floor as real == RoundAt(x, s) * s
  {
    var k := (x * s + 0.5).Floor;
    DivMulCancel(k as real, s);
    assert RoundAt(x, s) * s == k as real;
    assert (k as real).Floor == k;
  }

  /** RoundAtDigits for a negative x. */
  lemma RoundDownDigits(x: real, s: real)
    requires s > 0.0 && x < 0.0
    ensures (RoundAt(x, s) * s).Floor as real == RoundAt(x, s) * s
  {
    var k := (-x * s + 0.5).Floor;
    DivMulCancel(k as real, s);
    assert -((k as real) / s) * s == -((k as real) / s * s);
    assert RoundAt(x, s) * s == (-k) as real;
    assert ((-k) as real).Floor == -k;
  }

  /** Rounding at the scale 10^p is a rounding to p places that keeps the sign. */
  lemma {:induction false} RoundAtRounds(x: real, p: nat)
    ensures RoundsTo(RoundAt(x, Scale(p)), x, p)
    ensures x >= 0.0 ==> RoundAt(x, Scale(p)) >= 0.0
    ensures x <= 0.0 ==> RoundAt(x, Scale(p)) <= 0.0
  {
    RoundAtDigits(x, Scale(p));
    RoundAtBound(x, Scale(p));
    RoundAtSign(x, Scale(p));
  }

  /** Python 2's round(x, p): to the nearest multiple of 10^-p, halves away from zero. */
  function Round(x: real, p: nat): (r: real)
    ensures RoundsTo(r, x, p)
    ensures x >= 0.0 ==> r >= 0.0
    ensures x <= 0.0 ==> r <= 0.0
  {
    RoundAtRounds(x, p);
    RoundAt(x, Scale(p))
  }

  lemma RoundAtExact(x: real, s: real)
    requires s > 0.0
    requires (x * s).Floor as real == x * s
    ensures RoundAt(x, s) == x
  {
    var k := (x * s).Floor;
    if x >= 0.0 {
      assert (x * s + 0.5).Floor == k;
      MulDivCancel(x, s);
    } else {
      assert -x * s == (-k) as real;
      assert (-x * s + 0.5).Floor == -k;
      MulDivCancel(-x, s);
      assert ((-k) as real) / s == -x;
    }
  }

  /** A value that already has at most p decimals is left as it is. */
  lemma {:induction false} RoundExact(x: real, p: nat)
    requires HasDigits(x, p)
    ensures Round(x, p) == x
  {
    RoundAtExact(x, Scale(p));
  }

  /** Rounding twice to the same precision is rounding once. */
  lemma {:induction false} RoundIdempotent(x: real, p: nat)
    ensures Round(Round(x, p), p) == Round(x, p)
  {
    RoundExact(Round(x, p), p);
  }

  /** A half of the last place is rounded away from zero: up for a positive
      value, down for a negative one. */
  lemma {:induction false} RoundHalfAwayFromZero(k: nat, p: nat)
    ensures Round((k as real + 0.5) / Scale(p), p) == (k + 1) as real / Scale(p)
    ensures Round(-((k as real + 0.5) / Scale(p)), p) == -((k + 1) as real / Scale(p))
  {
    RoundAtHalfUp(k, Scale(p));
    RoundAtHalfDown(k, Scale(p));
  }

  lemma RoundAtHalfUp(k: nat, s: real)
    requires s > 0.0
    ensures RoundAt((k as real + 0.5) / s, s) == (k + 1) as real / s
  {
    var x := (k as real + 0.5) / s;
    DivMulCancel(k as real + 0.5, s);
    assert x >= 0.0;
    RoundAtNonNegative(x, s);
    assert (x * s + 0.5).Floor == k + 1;
  }

  lemma RoundAtHalfDown(k: nat, s: real)
    requires s > 0.0
    ensures RoundAt(-((k as real + 0.5) / s), s) == -((k + 1) as real / s)
  {
    var x := (k as real + 0.5) / s;
    DivMulCancel(k as real + 0.5, s);
    assert x > 0.0;
    RoundAtNegative(-x, s);
    assert (-(-x) * s + 0.5).Floor == k + 1;
  }

  lemma RoundAtNonNegative(x: real, s: real)
    requires s > 0.0 && x >= 0.0
    ensures RoundAt(x, s) == ((x * s + 0.5).Floor as real) / s
  {
  }

  lemma RoundAtNegative(x: real, s: real)
    requires s > 0.0 && x < 0.0
    ensures RoundAt(x, s) == -(((-x * s + 0.5).Floor as real) / s)
  {
  }

  /** Whole numbers survive rounding at any precision. */
  lemma {:induction false} RoundWhole(k: int, p: nat)
    ensures Round(k as real, p) == k as real
  {
    var q := Pow10(p);
    var n := k * q;
    assert (k * q) as real == (k as real) * (q as real);
    var x := k as real;
    assert x * Scale(p) == n as real;
    assert (x * Scale(p)).Floor == n;
    assert HasDigits(x, p);
    RoundExact(x, p);
  }
}
