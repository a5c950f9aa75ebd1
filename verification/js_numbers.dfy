/** Exact-real stand-ins for the JavaScript number primitives the scaling
    helpers use: `Math.floor(y) === y`, `%`, `Math.round` and NaN.
    Floating-point rounding is idealised away: every value is a `real`. */
module JsNumbers {

  /** A value that may be absent (`undefined` in JavaScript). */
  datatype Option<+T> = None | Some(value: T)

  /** A JavaScript number: a finite value or NaN. */
  datatype Number = Num(value: real) | NaN

  /** `Math.floor(y) === y`: y is a whole number. */
  predicate IsInteger(y: real)
  {
    y.Floor as real == y
  }

  /** `IsInteger` holds of every whole number and of nothing strictly
      between two consecutive ones. */
  lemma IsIntegerExactlyWhole(y: real, k: int)
    ensures IsInteger(k as real)
    ensures k as real < y < (k + 1) as real ==> !IsInteger(y)
  {
    if k as real < y < (k + 1) as real {
      assert y.Floor == k;
    }
  }

  function Abs(y: real): real
  {
    if y < 0.0 then -y else y
  }

  /** Truncation toward zero, the quotient JavaScript's `%` is built on. */
  function Trunc(y: real): (t: int)
    ensures 0.0 <= y ==> 0.0 <= t as real <= y < t as real + 1.0
    ensures y <= 0.0 ==> t as real - 1.0 < y <= t as real <= 0.0
  {
    if y >= 0.0 then y.Floor else -((-y).Floor)
  }

  /** JavaScript `x % div`: NaN for a zero divisor, otherwise what is left of
      x once a whole number of div is taken away toward zero; for
      non-negative operands it lies in [0, div). */
  function Rem(x: real, div: real): (r: Number)
    ensures r.NaN? <==> div == 0.0
    ensures r.Num? ==> IsInteger((x - r.value) / div)
    ensures r.Num? && 0.0 <= x && 0.0 < div ==> 0.0 <= r.value < div
  {
    if div == 0.0 then NaN
    else
      var q := x / div;
      var t := Trunc(q);
      var left := x - div * (t as real);
      DivisionFacts(x, div, t);
      if 0.0 <= x && 0.0 < div then
        ScaleBounds(x, div, q, t as real);
        Num(left)
      else
        Num(left)
  }

  lemma DivisionFacts(x: real, div: real, t: int)
    requires div != 0.0
    ensures div * (x / div) == x
    ensures IsInteger((x - (x - div * (t as real))) / div)
  {
    QuotientOfMultiple(x - (x - div * (t as real)), div, t);
  }

  /** A whole multiple of div divided by div is a whole number. */
  lemma QuotientOfMultiple(y: real, div: real, t: int)
    requires div != 0.0 && y == div * (t as real)
    ensures IsInteger(y / div)
  {
    assert y / div == t as real;
  }

  /** From T <= q < T + 1 and div * q == x, scaled by div > 0. */
  lemma ScaleBounds(x: real, div: real, q: real, T: real)
    requires 0.0 < div && div * q == x
    requires T <= q < T + 1.0
    ensures 0.0 <= x - div * T < div
  {
    MulPositive(div, T + 1.0 - q);
    assert div * (T + 1.0 - q) == div * T + div - div * q;
    assert 0.0 < div * T + div - x;
    MulNonNegative(div, q - T);
    assert div * (q - T) == div * q - div * T;
  }

  lemma MulPositive(u: real, v: real)
    requires 0.0 < u && 0.0 < v
    ensures 0.0 < u * v
  {
  }

  lemma MulNonNegative(u: real, v: real)
    requires 0.0 <= u && 0.0 <= v
    ensures 0.0 <= u * v
  {
  }

  /** `Math.round(y)`: the whole number nearest to y, halves rounded up. */
  function Round(y: real): (r: real)
    ensures IsInteger(r)
    ensures y - 0.5 < r <= y + 0.5
  {
    (y + 0.5).Floor as real
  }

  /** Rounding a whole number leaves it as it is. */
  lemma RoundWhole(y: real)
    requires IsInteger(y)
    ensures Round(y) == y
  {
    assert (y + 0.5).Floor == y.Floor;
  }
}
