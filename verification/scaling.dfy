/** `getOutputScale` and `roundToDivide` of main.js (taken from pdf.js's
    ui_utils): the canvas output scale for a display, and snapping a canvas
    dimension up to a multiple of a fraction's numerator or denominator. */
module Scaling {
  import opened JsNumbers

  /** The `{sx, sy, scaled}` record `getOutputScale` returns. */
  datatype OutputScale = OutputScale(sx: real, sy: real, scaled: bool)

  /** JavaScript `v || 1` for a ratio read from the environment: a missing
      ratio and a ratio of 0 are both falsy and give 1. */
  function OrOne(v: Option<real>): (r: real)
    ensures r != 0.0
    ensures v.Some? && v.value != 0.0 ==> r == v.value
    ensures v.None? || v.value == 0.0 ==> r == 1.0
  {
    if v.Some? && v.value != 0.0 then v.value else 1.0
  }

  /** `getOutputScale` of main.js:169-182, given the device pixel ratio and
      the canvas's backing-store ratio instead of reading them: both axes
      scale by the quotient of the two, and the output is `scaled` exactly
      when the two ratios differ. */
  function GetOutputScale(devicePixelRatio: Option<real>, backingStoreRatio: Option<real>): (s: OutputScale)
    ensures s.sx == s.sy
    ensures s.sx * OrOne(backingStoreRatio) == OrOne(devicePixelRatio)
    ensures s.scaled <==> OrOne(devicePixelRatio) != OrOne(backingStoreRatio)
  {
    var pixelRatio := OrOne(devicePixelRatio) / OrOne(backingStoreRatio);
    QuotientIsOne(OrOne(devicePixelRatio), OrOne(backingStoreRatio));
    OutputScale(pixelRatio, pixelRatio, pixelRatio != 1.0)
  }

  /** u / v is 1 exactly when u and v are equal. */
  lemma QuotientIsOne(u: real, v: real)
    requires v != 0.0
    ensures u / v * v == u
    ensures u / v == 1.0 <==> u == v
  {
  }

  /** With neither ratio known the output is the identity scale. */
  lemma UnknownRatiosAreUnscaled()
    ensures GetOutputScale(None, None) == OutputScale(1.0, 1.0, false)
  {
  }

  /** y is a whole multiple of div. */
  predicate IsMultiple(y: real, div: int)
    requires div != 0
  {
    IsInteger(y / div as real)
  }

  /** `roundToDivide(x, div)` of main.js:184-187. The divisor is always an
      entry of an `approximateFraction` result, so it is a whole number; a
      zero divisor makes `x % div` NaN and the result NaN with it. */
  function RoundToDivide(x: real, div: int): (r: Number)
    ensures r.NaN? <==> div == 0
  {
    var rem := Rem(x, div as real);
    if rem.NaN? then NaN
    else if rem.value == 0.0 then Num(x)
    else Num(Round(x - rem.value + div as real))
  }

  /** For a non-negative x and a positive divisor, `roundToDivide` returns a
      multiple of div in [x, x + div): x itself exactly when x already is a
      multiple, and otherwise a value strictly above x. */
  lemma RoundToDivideSnapsUp(x: real, div: int)
    requires 0.0 <= x && 0 < div
    ensures RoundToDivide(x, div).Num?
    ensures IsMultiple(RoundToDivide(x, div).value, div)
    ensures x <= RoundToDivide(x, div).value < x + div as real
    ensures RoundToDivide(x, div).value == x <==> IsMultiple(x, div)
  {
    var D := div as real;
    var rem := Rem(x, D).value;
    var t := MultipleOfQuotient(x - rem, div);
    if rem == 0.0 {
      assert x - rem == x;
    } else {
      var up := x - rem + D;
      assert up == D * (t as real) + D;
      MultipleIsWhole(up, div, t + 1);
      RoundWhole(up);
      assert RoundToDivide(x, div) == Num(up);
      NotMultiple(x, div, t, rem);
    }
  }

  /** A whole quotient y / div names the multiple: y == div * t. */
  lemma MultipleOfQuotient(y: real, div: int) returns (t: int)
    requires 0 < div && IsInteger(y / div as real)
    ensures y == div as real * (t as real)
  {
    t := (y / div as real).Floor;
  }

  /** div * t is a whole number and a multiple of div. */
  lemma MultipleIsWhole(y: real, div: int, t: int)
    requires 0 < div && y == div as real * (t as real)
    ensures IsInteger(y) && IsMultiple(y, div)
  {
    assert y == (div * t) as real;
    assert y / div as real == t as real;
  }

  /** x = div * t + rem with 0 < rem < div is not a whole multiple of div. */
  lemma NotMultiple(x: real, div: int, t: int, rem: real)
    requires 0 < div && 0.0 < rem < div as real
    requires x == div as real * (t as real) + rem
    ensures !IsMultiple(x, div)
  {
    var D := div as real;
    var q := x / D;
    assert q == t as real + rem / D;
    assert 0.0 < rem / D < 1.0;
    assert q.Floor == t;
  }

  /** The result is the least multiple of div at or above x: every multiple
      k * div that is at least x is at least the result. */
  lemma RoundToDivideIsLeast(x: real, div: int, k: int)
    requires 0.0 <= x && 0 < div
    requires x <= (k * div) as real
    ensures RoundToDivide(x, div).Num?
    ensures RoundToDivide(x, div).value <= (k * div) as real
  {
    RoundToDivideSnapsUp(x, div);
    var v := RoundToDivide(x, div).value;
    var m := MultipleOfQuotient(v, div);
    MultiplesBelow(div, m, k);
  }

  /** div * m < div * (k + 1) means m <= k, so div * m <= div * k. */
  lemma MultiplesBelow(div: int, m: int, k: int)
    requires 0 < div && div as real * (m as real) < (k * div) as real + div as real
    ensures div as real * (m as real) <= (k * div) as real
  {
    assert div as real * (m as real) == (div * m) as real;
    assert (k * div) as real + div as real == (div * (k + 1)) as real;
    if k < m {
      MulMonotone(div, k + 1, m);
      assert false;
    }
  }

  lemma MulMonotone(f: int, u: int, v: int)
    requires 0 < f && u <= v
    ensures f * u <= f * v
  {
  }
}
