/** The window statistics in their three written forms, over exact reals. */
module Statistics {
  import opened Basics

  // Products get names so that an induction over a series can treat them as plain terms.

  function Times(x: real, y: real): real {
    x * y
  }

  function Square(x: real): real {
    x * x
  }

  function Sum(s: seq<real>): real {
    if s == [] then 0.0 else Sum(s[..|s| - 1]) + s[|s| - 1]
  }

  function SquaredDeviations(s: seq<real>, mu: real): real {
    if s == [] then 0.0 else SquaredDeviations(s[..|s| - 1], mu) + Square(s[|s| - 1] - mu)
  }

  /** Sum of (i - xm) * (s[i] - ym). */
  function Cross(s: seq<real>, xm: real, ym: real): real {
    if s == [] then 0.0
    else Cross(s[..|s| - 1], xm, ym) + Times((|s| - 1) as real - xm, s[|s| - 1] - ym)
  }

  /** Sum of (i - xm)^2 for i below n. */
  function Spread(n: nat, xm: real): real {
    if n == 0 then 0.0 else Spread(n - 1, xm) + Square((n - 1) as real - xm)
  }

  function Average(s: seq<real>): real {
    if s == [] then 0.0 else Sum(s) / |s| as real
  }

  function Variance(s: seq<real>): real {
    if s == [] then 0.0 else SquaredDeviations(s, Average(s)) / |s| as real
  }

  /** n (n^2 - 1) / 12. */
  function SpreadOf(n: real): real {
    n * (n * n - 1.0) / 12.0
  }

  lemma SpreadOfPositive(a: real)
    requires a >= 2.0
    ensures SpreadOf(a) > 0.0
  {
    assert a * a - 1.0 > 0.0;
  }

  function MidIndex(n: nat): real {
    (n as real - 1.0) / 2.0
  }

  /** Least-squares slope against 0..n-1 in closed form; zero for fewer than two points. */
  function Slope(s: seq<real>): real {
    if |s| < 2 then 0.0
    else
      SpreadOfPositive(|s| as real);
      Cross(s, MidIndex(|s|), Average(s)) / SpreadOf(|s| as real)
  }

  // ------------------------------------------------------------------ the index axis

  /** 0.0, 1.0, ..., n - 1. */
  function Arange(n: nat): (r: seq<real>)
    ensures |r| == n
    ensures forall i :: 0 <= i < n ==> r[i] == i as real
  {
    seq(n, i requires 0 <= i < n => i as real)
  }

  lemma ArangeFront(n: nat)
    requires n > 0
    ensures Arange(n)[..n - 1] == Arange(n - 1)
  {
  }

  /** n (n - 1) / 2. */
  function Triangle(n: real): real {
    n * (n - 1.0) / 2.0
  }

  lemma TriangleStep(n: real)
    ensures Triangle(n + 1.0) == Triangle(n) + n
    ensures Triangle(0.0) == 0.0
  {
  }

  lemma {:induction false} SumOfIndices(n: nat)
    ensures Sum(Arange(n)) == Triangle(n as real)
  {
    hide Triangle;
    TriangleStep(0.0);
    if n > 0 {
      SumOfIndices(n - 1);
      ArangeFront(n);
      TriangleStep((n - 1) as real);
    }
  }

  /** The mean index is (n - 1) / 2. */
  lemma MeanIndex(n: nat)
    requires n > 0
    ensures Average(Arange(n)) == MidIndex(n)
  {
    SumOfIndices(n);
    TriangleOverLength(n as real);
  }

  lemma TriangleOverLength(a: real)
    requires a > 0.0
    ensures Triangle(a) / a == (a - 1.0) / 2.0
  {
    QuotientIs(Triangle(a), a, (a - 1.0) / 2.0);
  }

  lemma QuotientIs(x: real, d: real, q: real)
    requires d != 0.0 && x == d * q
    ensures x / d == q
  {
  }

  /** Six times the sum of (i - xm)^2 for i below a, as a polynomial in a. */
  function SpreadPolynomial(a: real, xm: real): real {
    a * (a - 1.0) * (2.0 * a - 1.0) - 6.0 * xm * (a * (a - 1.0)) + 6.0 * a * (xm * xm)
  }

  lemma SpreadPolynomialStep(k: real, xm: real)
    ensures SpreadPolynomial(k + 1.0, xm) == SpreadPolynomial(k, xm) + 6.0 * Square(k - xm)
    ensures SpreadPolynomial(0.0, xm) == 0.0
  {
  }

  lemma {:induction false} SpreadClosedForm(n: nat, xm: real)
    ensures 6.0 * Spread(n, xm) == SpreadPolynomial(n as real, xm)
  {
    hide SpreadPolynomial, Square;
    SpreadPolynomialStep(0.0, xm);
    if n > 0 {
      SpreadClosedForm(n - 1, xm);
      SpreadPolynomialStep((n - 1) as real, xm);
    }
  }

  lemma AtMidIndex(a: real)
    ensures SpreadPolynomial(a, (a - 1.0) / 2.0) == 6.0 * SpreadOf(a)
  {
  }

  /** The denominator of every form is n (n^2 - 1) / 12; it is zero for one point and positive from two on. */
  lemma SpreadAboutMean(n: nat)
    ensures n > 0 ==> Spread(n, MidIndex(n)) == SpreadOf(n as real)
    ensures n >= 2 ==> SpreadOf(n as real) > 0.0
    ensures n < 2 ==> SpreadOf(n as real) == 0.0
  {
    if n > 0 {
      SpreadClosedForm(n, MidIndex(n));
      AtMidIndex(n as real);
    }
    if n >= 2 {
      SpreadOfPositive(n as real);
    }
  }

  // ------------------------------------------------------------------ the accumulator loops

  method MeanLoop(values: seq<real>) returns (m: real)
    ensures m == Average(values)
    ensures if values == [] then m == 0.0 else m * |values| as real == Sum(values)
  {
    if |values| == 0 {
      return 0.0;
    }
    var sum := 0.0;
    for i := 0 to |values|
      invariant sum == Sum(values[..i])
    {
      assert values[..i + 1][..i] == values[..i];
      sum := sum + values[i];
    }
    assert values[..|values|] == values;
    return sum / |values| as real;
  }

  /** `root` stands for the square root. */
  method StddevLoop(values: seq<real>, root: real -> real) returns (d: real)
    ensures d == if values == [] then 0.0 else root(Variance(values))
  {
    if |values| == 0 {
      return 0.0;
    }
    var mu := MeanLoop(values);
    var acc := 0.0;
    for i := 0 to |values|
      invariant acc == SquaredDeviations(values[..i], mu)
    {
      assert values[..i + 1][..i] == values[..i];
      var d := values[i] - mu;
      acc := acc + d * d;
    }
    assert values[..|values|] == values;
    return root(acc / |values| as real);
  }

  lemma OneMoreCross(values: seq<real>, i: nat, xm: real, ym: real)
    requires i < |values|
    ensures Cross(values[..i + 1], xm, ym) == Cross(values[..i], xm, ym) + (i as real - xm) * (values[i] - ym)
    ensures Spread(i + 1, xm) == Spread(i, xm) + (i as real - xm) * (i as real - xm)
  {
    assert values[..i + 1][..i] == values[..i];
  }

  lemma NothingCrossed(values: seq<real>, xm: real, ym: real)
    ensures Cross(values[..0], xm, ym) == 0.0 && Spread(0, xm) == 0.0
  {
  }

  method SlopeLoop(values: seq<real>) returns (slope: real)
    ensures slope == Slope(values)
    ensures |values| < 2 ==> slope == 0.0
  {
    var n := |values|;
    if n < 2 {
      return 0.0;
    }
    var xMean := (n - 1) as real / 2.0;
    var yMean := MeanLoop(values);
    hide Cross, Spread, SpreadOf, Average;
    NothingCrossed(values, xMean, yMean);
    var num := 0.0;
    var den := 0.0;
    for i := 0 to n
      invariant num == Cross(values[..i], xMean, yMean)
      invariant den == Spread(i, xMean)
    {
      OneMoreCross(values, i, xMean, yMean);
      var dx := i as real - xMean;
      num := num + dx * (values[i] - yMean);
      den := den + dx * dx;
    }
    assert values[..n] == values;
    SpreadAboutMean(n);
    if den == 0.0 {
      return 0.0;
    }
    return num / den;
  }

  // ------------------------------------------------------------------ the variance without its mean

  function SumOfSquares(s: seq<real>): real {
    if s == [] then 0.0 else SumOfSquares(s[..|s| - 1]) + Square(s[|s| - 1])
  }

  /** Squared deviations from any centre, from the sums of the series. */
  function DeviationsFromSums(n: real, total: real, squares: real, mu: real): real {
    squares - 2.0 * (mu * total) + n * (mu * mu)
  }

  lemma DeviationsStep(n: real, total: real, squares: real, mu: real, v: real)
    ensures DeviationsFromSums(n + 1.0, total + v, squares + Square(v), mu)
            == DeviationsFromSums(n, total, squares, mu) + Square(v - mu)
    ensures DeviationsFromSums(0.0, 0.0, 0.0, mu) == 0.0
  {
  }

  lemma {:induction false} DeviationsAreSums(s: seq<real>, mu: real)
    ensures SquaredDeviations(s, mu) == DeviationsFromSums(|s| as real, Sum(s), SumOfSquares(s), mu)
  {
    hide DeviationsFromSums, Square;
    DeviationsStep(0.0, 0.0, 0.0, mu, 0.0);
    if s != [] {
      var front := s[..|s| - 1];
      DeviationsAreSums(front, mu);
      DeviationsStep(|front| as real, Sum(front), SumOfSquares(front), mu, s[|s| - 1]);
      assert |s| as real == |front| as real + 1.0;
    }
  }

  lemma VarianceAlgebra(n: real, total: real, squares: real)
    requires n > 0.0
    ensures DeviationsFromSums(n, total, squares, total / n) / n * (n * n) == n * squares - total * total
  {
    var mu := total / n;
    assert mu * n == total;
    var d := DeviationsFromSums(n, total, squares, mu);
    assert d == squares - mu * total by {
      assert n * (mu * mu) == mu * total;
    }
    assert d / n * n == d;
    assert d * n == n * squares - total * total by {
      assert mu * total * n == total * total;
    }
  }

  /** The variance is that of the whole population: n^2 times it is n times the sum of squares less the squared sum. */
  lemma VarianceOfPopulation(s: seq<real>)
    requires s != []
    ensures Variance(s) * Square(|s| as real) == |s| as real * SumOfSquares(s) - Square(Sum(s))
  {
    hide DeviationsFromSums, SquaredDeviations, Sum, SumOfSquares;
    var n := |s| as real;
    DeviationsAreSums(s, Average(s));
    VarianceAlgebra(n, Sum(s), SumOfSquares(s));
    assert Square(n) == n * n && Square(Sum(s)) == Sum(s) * Sum(s);
  }

  // ------------------------------------------------------------------ the array expressions

  function Centred(s: seq<real>): (r: seq<real>)
    ensures |r| == |s|
    ensures forall i :: 0 <= i < |s| ==> r[i] == s[i] - Average(s)
  {
    seq(|s|, i requires 0 <= i < |s| => s[i] - Average(s))
  }

  /** Elementwise product, summed. */
  function Dot(a: seq<real>, b: seq<real>): real
    requires |a| == |b|
  {
    if a == [] then 0.0
    else Dot(a[..|a| - 1], b[..|b| - 1]) + Times(a[|a| - 1], b[|b| - 1])
  }

  /** Scalar array form of the slope, guards included. */
  function SlopeArray(s: seq<real>): real {
    if |s| < 2 then 0.0
    else
      var xc := Centred(Arange(|s|));
      var denom := Dot(xc, xc);
      if denom == 0.0 then 0.0 else Dot(xc, Centred(s)) / denom
  }

  /** Vectorised form: no guard, so a zero denominator has no numeric result. */
  function SlopeAxis(s: seq<real>): Option<real> {
    var xc := Centred(Arange(|s|));
    var denom := Dot(xc, xc);
    if denom == 0.0 then None else Some(Dot(xc, Centred(s)) / denom)
  }

  lemma {:induction false} DotIsSpread(xc: seq<real>, xm: real)
    requires forall i :: 0 <= i < |xc| ==> xc[i] == i as real - xm
    ensures Dot(xc, xc) == Spread(|xc|, xm)
  {
    if xc != [] {
      DotIsSpread(xc[..|xc| - 1], xm);
    }
  }

  lemma {:induction false} DotIsCross(xc: seq<real>, yc: seq<real>, s: seq<real>, xm: real, ym: real)
    requires |xc| == |yc| == |s|
    requires forall i :: 0 <= i < |s| ==> xc[i] == i as real - xm && yc[i] == s[i] - ym
    ensures Dot(xc, yc) == Cross(s, xm, ym)
  {
    if s != [] {
      DotIsCross(xc[..|xc| - 1], yc[..|yc| - 1], s[..|s| - 1], xm, ym);
    }
  }

  /**
   * The accumulator loops, the scalar array form and the vectorised form give one slope; the
   * vectorised form has a result exactly from two points on.
   */
  lemma SlopeFormsAgree(s: seq<real>)
    ensures SlopeArray(s) == Slope(s)
    ensures SlopeAxis(s) == if |s| >= 2 then Some(Slope(s)) else None
  {
    hide SpreadOf;
    var n := |s|;
    var xc := Centred(Arange(n));
    if n > 0 {
      MeanIndex(n);
      SpreadAboutMean(n);
      DotIsSpread(xc, MidIndex(n));
      DotIsCross(xc, Centred(s), s, MidIndex(n), Average(s));
    }
  }

  /** Mean of the squared centred values, as the array library computes the variance. */
  function VarianceArray(s: seq<real>): real
    requires s != []
  {
    Dot(Centred(s), Centred(s)) / |s| as real
  }

  lemma {:induction false} DotIsSquares(c: seq<real>, s: seq<real>, mu: real)
    requires |c| == |s| && forall i :: 0 <= i < |s| ==> c[i] == s[i] - mu
    ensures Dot(c, c) == SquaredDeviations(s, mu)
  {
    if s != [] {
      DotIsSquares(c[..|c| - 1], s[..|s| - 1], mu);
    }
  }

  lemma VarianceFormsAgree(s: seq<real>)
    requires s != []
    ensures VarianceArray(s) == Variance(s)
  {
    DotIsSquares(Centred(s), s, Average(s));
  }
}
