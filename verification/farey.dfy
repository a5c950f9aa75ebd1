/** `approximateFraction` of main.js (taken from pdf.js's ui_utils): a
    positive number approximated by a fraction whose denominator is at most
    `Limit`, found by walking the Farey sequence of order `Limit`. */
module Farey {
  import opened JsNumbers

  /** The largest order searched (`limit` in main.js). */
  const Limit: int := 8

  /** The two-element array `[numerator, denominator]` main.js returns. */
  datatype Fraction = Fraction(num: int, den: int) {
    /** The same pair read the other way round: `[den, num]`. */
    function Reciprocal(): Fraction
    {
      Fraction(den, num)
    }
  }

  /** The search state: the two fractions a/b and c/d that enclose the
      value being approximated. */
  datatype Bracket = Bracket(a: int, b: int, c: int, d: int)

  /** The exact value of n/m. */
  function Ratio(n: int, m: int): real
    requires m != 0
  {
    n as real / m as real
  }

  /** The bracket main.js starts from: 0/1 and 1/1. */
  const Start: Bracket := Bracket(0, 1, 1, 1)

  /** The loop invariant of the search: a/b and c/d are neighbours in the
      Farey sequence (b*c - a*d == 1) of order at most Limit, with
      0 <= a/b < y <= c/d <= 1. */
  predicate Neighbours(y: real, n: Bracket)
  {
    0 <= n.a && 1 <= n.b <= Limit && 1 <= n.d <= Limit && n.c <= n.d
    && n.b * n.c - n.a * n.d == 1
    && Ratio(n.a, n.b) < y <= Ratio(n.c, n.d)
  }

  /** The arithmetic facts about a Farey bracket the proofs lean on. */
  lemma NeighboursFacts(y: real, n: Bracket)
    requires Neighbours(y, n)
    ensures 1 <= n.c && n.a < n.b
    ensures 0.0 <= Ratio(n.a, n.b) && Ratio(n.c, n.d) <= 1.0
  {
    if n.c <= 0 {
      MulNonPositiveInt(n.b, n.c);
      MulNonNegativeInt(n.a, n.d);
      assert false;
    }
    RatioCompare(n.c, n.d, 1, 1);
    RatioCompare(n.a, n.b, 1, 1);
    RatioCompare(0, 1, n.a, n.b);
  }

  lemma MulNonPositiveInt(u: int, v: int)
    requires 0 <= u && v <= 0
    ensures u * v <= 0
  {
  }

  lemma MulNonNegativeInt(u: int, v: int)
    requires 0 <= u && 0 <= v
    ensures 0 <= u * v
  {
  }

  /** Comparing two fractions with positive denominators is comparing the
      cross products. */
  lemma RatioCompare(n: int, m: int, k: int, l: int)
    requires 0 < m && 0 < l
    ensures Ratio(n, m) <= Ratio(k, l) <==> n * l <= k * m
    ensures Ratio(n, m) < Ratio(k, l) <==> n * l < k * m
  {
    var M, L := m as real, l as real;
    var lhs, rhs := Ratio(n, m), Ratio(k, l);
    assert lhs * M == n as real;
    assert rhs * L == k as real;
    ScaleBy(lhs, rhs, M * L);
    assert lhs * (M * L) == (n * l) as real;
    assert rhs * (M * L) == (k * m) as real;
  }

  /** Multiplying both sides by a positive factor keeps the order. */
  lemma ScaleBy(u: real, v: real, f: real)
    requires 0.0 < f
    ensures u <= v <==> u * f <= v * f
    ensures u < v <==> u * f < v * f
  {
    assert v * f - u * f == (v - u) * f;
  }

  /** Taking reciprocals of positive values reverses their order. */
  lemma ReciprocalReverses(u: real, v: real)
    requires 0.0 < u && 0.0 < v
    ensures u <= v <==> 1.0 / v <= 1.0 / u
    ensures u < v <==> 1.0 / v < 1.0 / u
    ensures 1.0 / (1.0 / u) == u
  {
    ScaleBy(1.0 / v, 1.0 / u, u * v);
    assert (1.0 / v) * (u * v) == u;
    assert (1.0 / u) * (u * v) == v;
  }

  /** One turn of the loop (main.js:150-158): the mediant (a+c)/(b+d)
      replaces c/d when y <= (a+c)/(b+d), and a/b otherwise. */
  function Step(y: real, n: Bracket): Bracket
    requires 0 < n.b + n.d
  {
    var p, q := n.a + n.c, n.b + n.d;
    if y <= Ratio(p, q) then Bracket(n.a, n.b, p, q) else Bracket(p, q, n.c, n.d)
  }

  /** A turn keeps the end on y's side of the mediant and moves the other
      one to the mediant, so a bracket around y stays a bracket around y. */
  lemma StepMovesOneEnd(y: real, n: Bracket)
    requires 0 < n.b && 0 < n.d
    ensures var r, p, q := Step(y, n), n.a + n.c, n.b + n.d;
      (r == Bracket(n.a, n.b, p, q) && y <= Ratio(p, q))
      || (r == Bracket(p, q, n.c, n.d) && Ratio(p, q) < y)
    ensures var r := Step(y, n);
      Ratio(n.a, n.b) < y <= Ratio(n.c, n.d) ==> Ratio(r.a, r.b) < y <= Ratio(r.c, r.d)
  {
  }

  /** A turn taken while the mediant's denominator is within Limit keeps the
      bracket a pair of Farey neighbours around y, and grows b + d. */
  lemma StepKeepsNeighbours(y: real, n: Bracket)
    requires Neighbours(y, n) && n.b + n.d <= Limit
    ensures Neighbours(y, Step(y, n))
    ensures Step(y, n).b + Step(y, n).d > n.b + n.d
  {
    var p, q := n.a + n.c, n.b + n.d;
    NeighboursFacts(y, n);
    MediantDeterminant(n.a, n.b, n.c, n.d);
    if y <= Ratio(p, q) {
      assert Neighbours(y, Bracket(n.a, n.b, p, q));
    } else {
      assert Neighbours(y, Bracket(p, q, n.c, n.d));
    }
  }

  /** The mediant keeps the determinant with either neighbour. */
  lemma MediantDeterminant(a: int, b: int, c: int, d: int)
    ensures b * (a + c) - a * (b + d) == b * c - a * d
    ensures (b + d) * c - (a + c) * d == b * c - a * d
  {
  }

  /** The search loop (main.js:148-159) run to the end: it stops once the
      next mediant's denominator would exceed Limit, still holding a Farey
      bracket around y. */
  function Search(y: real, n: Bracket): (r: Bracket)
    requires Neighbours(y, n)
    ensures Neighbours(y, r)
    ensures r.b + r.d > Limit
    decreases 2 * Limit - (n.b + n.d)
  {
    if n.b + n.d > Limit then n
    else
      StepKeepsNeighbours(y, n);
      Search(y, Step(y, n))
  }

  /** Selection after the loop (main.js:162-166, before any swap): the
      neighbour closer to y, with a tie going to the upper one c/d. */
  function Closest(y: real, n: Bracket): (f: Fraction)
    requires Neighbours(y, n)
    ensures f == Fraction(n.a, n.b) || f == Fraction(n.c, n.d)
    ensures Abs(Ratio(f.num, f.den) - y) <= y - Ratio(n.a, n.b)
    ensures Abs(Ratio(f.num, f.den) - y) <= Ratio(n.c, n.d) - y
    ensures y - Ratio(n.a, n.b) == Ratio(n.c, n.d) - y ==> f == Fraction(n.c, n.d)
  {
    if y - Ratio(n.a, n.b) < Ratio(n.c, n.d) - y then Fraction(n.a, n.b)
    else Fraction(n.c, n.d)
  }

  /** The value main.js searches for: x itself below 1, its reciprocal
      above (`x_`). */
  function Reduced(x: real): (y: real)
    requires 0.0 < x
    ensures 0.0 < y <= 1.0
    ensures y == x || y * x == 1.0
  {
    if x > 1.0 then 1.0 / x else x
  }

  /** The inputs that reach the Farey search: neither x nor 1/x is a whole
      number, and 1/x is at most Limit. */
  predicate Searched(x: real)
  {
    0.0 < x && !IsInteger(x) && 1.0 / x <= Limit as real && !IsInteger(1.0 / x)
  }

  /** `approximateFraction(x)` of main.js:128-167. */
  function ApproximateFraction(x: real): (r: Fraction)
    requires 0.0 < x
    ensures IsInteger(x) ==> r.den == 1 && r.num as real == x
    ensures !IsInteger(x) && 1.0 / x > Limit as real ==> r == Fraction(1, Limit)
    ensures (!IsInteger(x) && 1.0 / x <= Limit as real && IsInteger(1.0 / x))
              ==> r.num == 1 && 2 <= r.den <= Limit && Ratio(r.num, r.den) == x
    ensures 0 <= r.num && 0 <= r.den
  {
    if IsInteger(x) then Fraction(x.Floor, 1)
    else
      var xinv := 1.0 / x;
      if xinv > Limit as real then Fraction(1, Limit)
      else if IsInteger(xinv) then
        ReciprocalOfWhole(x, xinv);
        Fraction(1, xinv.Floor)
      else
        var y := Reduced(x);
        var n := Search(y, Start);
        NeighboursFacts(y, n);
        var f := Closest(y, n);
        if y == x then f else f.Reciprocal()
  }

  /** When 1/x is a whole number k and x is not, k is in [2, 8] and 1/k is x. */
  lemma ReciprocalOfWhole(x: real, xinv: real)
    requires 0.0 < x && xinv == 1.0 / x && !IsInteger(x)
    requires IsInteger(xinv) && xinv <= Limit as real
    ensures 2 <= xinv.Floor <= Limit
    ensures Ratio(1, xinv.Floor) == x
  {
    assert xinv * x == 1.0 && 0.0 < xinv;
    assert IsInteger(1.0);
    assert x != 1.0;
    assert xinv != 1.0;
  }

  /** The classic Farey fact behind the search: a fraction h/k strictly
      between two Farey neighbours a/b and c/d has k >= b + d. */
  lemma MediantBound(n: Bracket, h: int, k: int)
    requires 1 <= n.b && 1 <= n.d && 1 <= k
    requires n.b * n.c - n.a * n.d == 1
    requires n.a * k < h * n.b && h * n.d < n.c * k
    ensures n.b + n.d <= k
  {
    var u, v := n.c * k - h * n.d, h * n.b - n.a * k;
    assert n.b * u + n.d * v == k * (n.b * n.c - n.a * n.d);
    AtLeastFactor(n.b, u);
    AtLeastFactor(n.d, v);
  }

  lemma AtLeastFactor(u: int, v: int)
    requires 1 <= u && 1 <= v
    ensures u <= u * v
  {
  }

  /** Once the search has stopped, no fraction with denominator in
      [1, Limit] lies strictly between the two neighbours. */
  lemma NoFractionBetween(y: real, n: Bracket, h: int, k: int)
    requires Neighbours(y, n) && n.b + n.d > Limit
    requires 1 <= k <= Limit
    ensures Ratio(h, k) <= Ratio(n.a, n.b) || Ratio(n.c, n.d) <= Ratio(h, k)
  {
    RatioCompare(n.a, n.b, h, k);
    RatioCompare(h, k, n.c, n.d);
    if Ratio(n.a, n.b) < Ratio(h, k) < Ratio(n.c, n.d) {
      MediantBound(n, h, k);
      assert false;
    }
  }

  /** The neighbour `Closest` picks after a finished search is a best
      approximation of y among all fractions with denominator in [1, Limit]. */
  lemma ClosestIsBest(y: real, n: Bracket, h: int, k: int)
    requires Neighbours(y, n) && n.b + n.d > Limit
    requires 1 <= k <= Limit
    ensures Abs(Ratio(Closest(y, n).num, Closest(y, n).den) - y) <= Abs(Ratio(h, k) - y)
  {
    NoFractionBetween(y, n, h, k);
  }

  /** A finished search whose lower neighbour is 0 is stuck at 0/1 and 1/Limit. */
  lemma ZeroLowerNeighbour(y: real, n: Bracket)
    requires Neighbours(y, n) && n.b + n.d > Limit && n.a == 0
    ensures n == Bracket(0, 1, 1, Limit)
  {
    NeighboursFacts(y, n);
    if n.b >= 2 {
      AtLeastFactor(n.c, n.b);
    }
  }

  /** For y at least 1/(2 Limit) the chosen neighbour's numerator is not 0:
      0/1 can only win against 1/Limit for y below 1/16. */
  lemma ClosestNumeratorPositive(y: real, n: Bracket)
    requires Neighbours(y, n) && n.b + n.d > Limit
    requires Ratio(1, 2 * Limit) <= y
    ensures 1 <= Closest(y, n).num <= Closest(y, n).den <= Limit
  {
    NeighboursFacts(y, n);
    if n.a == 0 {
      ZeroLowerNeighbour(y, n);
    }
  }

  /** Best approximation: on the inputs that reach the search, the result is
      at least as close to x (for x < 1), or its reciprocal to 1/x (for
      x > 1), as any fraction whose denominator is in [1, Limit]. */
  lemma ApproximationIsBest(x: real, h: int, k: int)
    requires Searched(x)
    requires 1 <= k <= Limit
    ensures var r := ApproximateFraction(x);
      x < 1.0 ==> 1 <= r.den && Abs(Ratio(r.num, r.den) - x) <= Abs(Ratio(h, k) - x)
    ensures var r := ApproximateFraction(x);
      1.0 < x ==> 1 <= r.num && Abs(Ratio(r.den, r.num) - 1.0 / x) <= Abs(Ratio(h, k) - 1.0 / x)
  {
    var y := Reduced(x);
    var n := Search(y, Start);
    ClosestIsBest(y, n, h, k);
    assert IsInteger(1.0);
  }

  /** Below 1 the result is a proper fraction with numerator at least 1 and
      denominator in [1, Limit]. */
  lemma BoundsBelowOne(x: real)
    requires 0.0 < x < 1.0
    ensures var r := ApproximateFraction(x);
      1 <= r.num <= r.den <= Limit
  {
    assert !IsInteger(x);
    if 1.0 / x <= Limit as real && !IsInteger(1.0 / x) {
      ReciprocalReverses(x, Limit as real);
      ReciprocalReverses(1.0 / x, Limit as real);
      assert Ratio(1, 2 * Limit) <= x;
      ClosestNumeratorPositive(x, Search(x, Start));
    }
  }

  /** Between 1 and 16 the result's denominator is still in [1, Limit]: the
      "max order of 8" of main.js:121-122 holds there. */
  lemma BoundsUpToSixteen(x: real)
    requires 1.0 <= x <= 2.0 * Limit as real
    ensures var r := ApproximateFraction(x);
      1 <= r.den <= Limit && r.den <= r.num
  {
    if !IsInteger(x) {
      var y := 1.0 / x;
      ReciprocalReverses(x, 2.0 * Limit as real);
      ReciprocalReverses(1.0, x);
      assert y.Floor == 0;
      ClosestNumeratorPositive(y, Search(y, Start));
    }
  }

  /** Above 16 a non-whole x gets `[1, 0]`: its reciprocal is closer to 0/1
      than to 1/8, so the swapped result has denominator 0 and the
      "max order of 8" of main.js:121-122 fails. */
  lemma AboveSixteenGivesOneOverZero(x: real)
    requires 2.0 * Limit as real < x && !IsInteger(x)
    ensures ApproximateFraction(x) == Fraction(1, 0)
  {
    var y := 1.0 / x;
    ReciprocalReverses(2.0 * Limit as real, x);
    assert y.Floor == 0;
    var n := Search(y, Start);
    RatioCompare(n.a, n.b, 1, Limit);
    ZeroLowerNeighbour(y, n);
  }

  /** For 1 < x <= 8 the search sees the same value from both sides, so the
      result for x is the result for 1/x swapped. */
  lemma ReciprocalSymmetry(x: real)
    requires 1.0 < x <= Limit as real && !IsInteger(x)
    ensures ApproximateFraction(x) == ApproximateFraction(1.0 / x).Reciprocal()
  {
    var y := 1.0 / x;
    assert y * x == 1.0;
    assert 0.0 < y < 1.0 && y.Floor == 0;
    assert 1.0 / y == x;
  }

  /** main.js:128-167 in the source's imperative form: early returns, the
      search as a `while` loop (in `SearchLoop`), then the final selection.
      It returns exactly `ApproximateFraction(x)`. */
  method ApproximateFractionLoop(x: real) returns (r: Fraction)
    requires 0.0 < x
    ensures r == ApproximateFraction(x)
  {
    if IsInteger(x) {
      return Fraction(x.Floor, 1);
    }
    var xinv := 1.0 / x;
    if xinv > Limit as real {
      return Fraction(1, Limit);
    } else if IsInteger(xinv) {
      return Fraction(1, xinv.Floor);
    }
    var y := if x > 1.0 then xinv else x;
    assert y == Reduced(x);
    var n := SearchLoop(y);
    if y - Ratio(n.a, n.b) < Ratio(n.c, n.d) - y {
      r := if y == x then Fraction(n.a, n.b) else Fraction(n.b, n.a);
    } else {
      r := if y == x then Fraction(n.c, n.d) else Fraction(n.d, n.c);
    }
  }

  /** The mediant search of main.js:145-159 as the source's `while (true)`
      loop with its `break`: it ends on the same bracket as `Search`. */
  method SearchLoop(y: real) returns (n: Bracket)
    requires 0.0 < y <= 1.0
    ensures n == Search(y, Start)
    ensures Neighbours(y, n) && n.b + n.d > Limit
  {
    var a, b, c, d := 0, 1, 1, 1;
    while true
      invariant Neighbours(y, Bracket(a, b, c, d))
      invariant Search(y, Bracket(a, b, c, d)) == Search(y, Start)
      decreases 2 * Limit - (b + d)
    {
      var p, q := a + c, b + d;
      if q > Limit {
        break;
      }
      ghost var next := Step(y, Bracket(a, b, c, d));
      StepKeepsNeighbours(y, Bracket(a, b, c, d));
      if y <= Ratio(p, q) {
        c, d := p, q;
      } else {
        a, b := p, q;
      }
      assert Bracket(a, b, c, d) == next;
    }
    n := Bracket(a, b, c, d);
  }

  /** For 1.5: it is searched as 2/3 (brackets 0/1-1/1, 1/2-1/1, 1/2-2/3,
      3/5-2/3, 5/8-2/3), 2/3 is the closer neighbour, and the swap gives
      `[3, 2]`. */
  lemma ThreeHalves()
    ensures ApproximateFraction(1.5) == Fraction(3, 2)
  {
    var y := 1.0 / 1.5;
    assert y == 2.0 / 3.0;
    assert (1.5).Floor == 1 && y.Floor == 0;
    assert Reduced(1.5) == y;
    TwoThirdsSearch();
    assert Closest(y, Bracket(5, 8, 2, 3)) == Fraction(2, 3);
  }

  /** The search for 2/3, one turn at a time. */
  lemma TwoThirdsSearch()
    ensures Search(2.0 / 3.0, Start) == Bracket(5, 8, 2, 3)
  {
    var y := 2.0 / 3.0;
    assert Ratio(1, 2) == 0.5 && Ratio(2, 3) == y && Ratio(3, 5) == 0.6 && Ratio(5, 8) == 0.625;
    var n1 := Step(y, Start);
    assert n1 == Bracket(1, 2, 1, 1);
    var n2 := Step(y, n1);
    assert n2 == Bracket(1, 2, 2, 3);
    var n3 := Step(y, n2);
    assert n3 == Bracket(3, 5, 2, 3);
    var n4 := Step(y, n3);
    assert n4 == Bracket(5, 8, 2, 3);
    assert Search(y, n3) == n4;
    assert Search(y, n2) == n4;
    assert Search(y, n1) == n4;
  }

  /** For 2.9 the search runs on 10/29 and stops at 1/3-3/8; 1/3 is the
      closer neighbour, so the result is `[3, 1]`. Yet 23/8 is closer to 2.9
      than 3 is: above 1 the result is a best approximation only as a
      reciprocal. */
  lemma TwoPointNine()
    ensures ApproximateFraction(2.9) == Fraction(3, 1)
    ensures Abs(Ratio(23, 8) - 2.9) < Abs(Ratio(3, 1) - 2.9)
  {
    var y := 1.0 / 2.9;
    assert y == 10.0 / 29.0;
    assert (2.9).Floor == 2 && y.Floor == 0;
    assert Reduced(2.9) == y;
    TenTwentyNinthsSearch();
    assert Closest(y, Bracket(1, 3, 3, 8)) == Fraction(1, 3);
  }

  /** The search for 10/29, one turn at a time. */
  lemma TenTwentyNinthsSearch()
    ensures Search(10.0 / 29.0, Start) == Bracket(1, 3, 3, 8)
  {
    var y := 10.0 / 29.0;
    assert Ratio(1, 2) == 0.5 && Ratio(1, 3) < y && Ratio(2, 5) == 0.4 && Ratio(3, 8) == 0.375;
    var n1 := Step(y, Start);
    assert n1 == Bracket(0, 1, 1, 2);
    var n2 := Step(y, n1);
    assert n2 == Bracket(1, 3, 1, 2);
    var n3 := Step(y, n2);
    assert n3 == Bracket(1, 3, 2, 5);
    var n4 := Step(y, n3);
    assert n4 == Bracket(1, 3, 3, 8);
    assert Search(y, n3) == n4;
    assert Search(y, n2) == n4;
    assert Search(y, n1) == n4;
  }
}
