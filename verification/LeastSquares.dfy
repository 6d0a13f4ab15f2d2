/** Why the slope statistic is the right one: optimality, sign and symmetry of the fitted line. */
module LeastSquares {
  import opened Basics
  import opened Statistics

  // ------------------------------------------------------------------ arithmetic

  lemma QuotientTimes(x: real, d: real)
    requires d != 0.0
    ensures Times(x / d, d) == x
    ensures Times(d, x / d) == x
  {
  }

  lemma TimesPositive(x: real, y: real)
    requires x > 0.0 && y > 0.0
    ensures Times(x, y) > 0.0
  {
  }

  lemma TimesNonNegative(x: real, y: real)
    requires x >= 0.0 && y >= 0.0
    ensures Times(x, y) >= 0.0
  {
  }

  lemma SquarePositive(x: real)
    ensures x > 0.0 ==> Square(x) > 0.0
    ensures Square(x) == Square(-x)
    ensures Square(0.0) == 0.0
  {
    if x > 0.0 {
      TimesPositive(x, x);
    }
  }

  lemma SquareSign(x: real)
    ensures Square(x) >= 0.0
    ensures Square(x) == 0.0 <==> x == 0.0
  {
    hide Square;
    SquarePositive(x);
    SquarePositive(-x);
  }

  lemma ScaledSign(k: real, q: real)
    requires k > 0.0 && q >= 0.0
    ensures Times(k, q) >= 0.0
    ensures Times(k, q) == 0.0 <==> q == 0.0
  {
  }

  lemma TwoSquares(k: real, x: real, m: real, y: real)
    requires k > 0.0 && m > 0.0
    ensures Times(k, Square(x)) + Times(m, Square(y)) >= 0.0
    ensures Times(k, Square(x)) + Times(m, Square(y)) == 0.0 <==> x == 0.0 && y == 0.0
  {
    hide Times, Square;
    SquareSign(x);
    SquareSign(y);
    ScaledSign(k, Square(x));
    ScaledSign(m, Square(y));
  }

  // ------------------------------------------------------------------ optimality

  function Line(a: real, b: real, i: real): real {
    a + b * i
  }

  /** Squared error of the line a + b*i against the series. */
  function Error(s: seq<real>, a: real, b: real): real {
    if s == [] then 0.0
    else Error(s[..|s| - 1], a, b) + Square(s[|s| - 1] - Line(a, b, (|s| - 1) as real))
  }

  /** The line through the point of the means with the reported slope. */
  function Intercept(s: seq<real>): real {
    Average(s) - Times(Slope(s), MidIndex(|s|))
  }

  /** How far the line misses the point of the means. */
  function Miss(s: seq<real>, a: real, b: real): real {
    Line(a, b, MidIndex(|s|)) - Average(s)
  }

  /**
   * The error of a line with slope b that misses the point (xm, ym) by c, from the sums of the
   * series: squared deviations, cross products, spread, length, total and total of the indices.
   */
  function FromSums(dev: real, cross: real, spread: real, n: real, total: real, indices: real,
                    xm: real, ym: real, b: real, c: real): real
  {
    dev - 2.0 * (b * cross) + b * b * spread + n * (c * c)
    - 2.0 * (c * (total - n * ym)) + 2.0 * (b * c * (indices - n * xm))
  }

  lemma FromSumsStep(dev: real, cross: real, spread: real, n: real, total: real, indices: real,
                     xm: real, ym: real, a: real, b: real, v: real)
    ensures var c := Line(a, b, xm) - ym;
      FromSums(dev + Square(v - ym), cross + Times(n - xm, v - ym), spread + Square(n - xm),
               n + 1.0, total + v, indices + n, xm, ym, b, c)
      == FromSums(dev, cross, spread, n, total, indices, xm, ym, b, c) + Square(v - Line(a, b, n))
  {
  }

  lemma FromSumsOfNothing(xm: real, ym: real, b: real, c: real)
    ensures FromSums(0.0, 0.0, 0.0, 0.0, 0.0, 0.0, xm, ym, b, c) == 0.0
  {
  }

  lemma {:induction false} ErrorFromSums(s: seq<real>, xm: real, ym: real, a: real, b: real)
    ensures Error(s, a, b)
            == FromSums(SquaredDeviations(s, ym), Cross(s, xm, ym), Spread(|s|, xm), |s| as real, Sum(s),
                        Sum(Arange(|s|)), xm, ym, b, Line(a, b, xm) - ym)
  {
    hide FromSums, Times, Square, Line;
    if s == [] {
      FromSumsOfNothing(xm, ym, b, Line(a, b, xm) - ym);
    } else {
      var front, v, n := s[..|s| - 1], s[|s| - 1], |s| - 1;
      ErrorFromSums(front, xm, ym, a, b);
      FromSumsStep(SquaredDeviations(front, ym), Cross(front, xm, ym), Spread(n, xm), n as real, Sum(front),
                   Sum(Arange(n)), xm, ym, a, b, v);
      ArangeFront(|s|);
      assert |s| as real == n as real + 1.0;
    }
  }

  /** Through the point of the means both remainders vanish and two squares are left over. */
  lemma SplitSquares(dev: real, spread: real, n: real, xm: real, ym: real, t: real, b: real, c: real)
    ensures FromSums(dev, Times(t, spread), spread, n, Times(n, ym), Times(n, xm), xm, ym, b, c)
            == FromSums(dev, Times(t, spread), spread, n, Times(n, ym), Times(n, xm), xm, ym, t, 0.0)
               + Times(spread, Square(b - t)) + Times(n, Square(c))
  {
  }

  lemma FittedLineMeetsMeans(s: seq<real>)
    ensures Miss(s, Intercept(s), Slope(s)) == 0.0
  {
    hide Average, Slope, MidIndex;
  }

  /** The sums about the means, in the form `SplitSquares` wants them. */
  lemma MeanSums(s: seq<real>)
    requires |s| >= 2
    ensures Sum(s) == Times(|s| as real, Average(s))
    ensures Sum(Arange(|s|)) == Times(|s| as real, MidIndex(|s|))
    ensures SpreadOf(|s| as real) > 0.0
    ensures Cross(s, MidIndex(|s|), Average(s)) == Times(Slope(s), SpreadOf(|s| as real))
    ensures Spread(|s|, MidIndex(|s|)) == SpreadOf(|s| as real)
  {
    hide Times, SpreadOf;
    SpreadAboutMean(|s|);
    MeanIndex(|s|);
    QuotientTimes(Sum(s), |s| as real);
    QuotientTimes(Sum(Arange(|s|)), |s| as real);
    QuotientTimes(Cross(s, MidIndex(|s|), Average(s)), SpreadOf(|s| as real));
  }

  /** The excess of any line over the fitted one, as an explicit sum of two squares. */
  lemma ErrorExcess(s: seq<real>, a: real, b: real)
    requires |s| >= 2
    ensures Error(s, a, b) == Error(s, Intercept(s), Slope(s))
                              + Times(SpreadOf(|s| as real), Square(b - Slope(s)))
                              + Times(|s| as real, Square(Miss(s, a, b)))
  {
    hide FromSums, Times, Square, Line, Average, Slope, SpreadOf, MidIndex, Intercept;
    var xm, ym := MidIndex(|s|), Average(s);
    MeanSums(s);
    FittedLineMeetsMeans(s);
    ErrorFromSums(s, xm, ym, a, b);
    ErrorFromSums(s, xm, ym, Intercept(s), Slope(s));
    SplitSquares(SquaredDeviations(s, ym), SpreadOf(|s| as real), |s| as real, xm, ym, Slope(s), b, Miss(s, a, b));
  }

  lemma MissDecidesIntercept(s: seq<real>, a: real)
    ensures Miss(s, a, Slope(s)) == 0.0 <==> a == Intercept(s)
  {
    hide Average, Slope, MidIndex;
  }

  /** No line fits better than the one through the means with slope `Slope`, and every other line fits worse. */
  lemma SlopeIsOptimal(s: seq<real>, a: real, b: real)
    requires |s| >= 2
    ensures Error(s, Intercept(s), Slope(s)) <= Error(s, a, b)
    ensures Error(s, a, b) == Error(s, Intercept(s), Slope(s)) <==> a == Intercept(s) && b == Slope(s)
  {
    hide Error, SpreadOf, Average, Slope, Times, Square, Miss, Intercept;
    ErrorExcess(s, a, b);
    SpreadAboutMean(|s|);
    MissDecidesIntercept(s, a);
    TwoSquares(SpreadOf(|s| as real), b - Slope(s), |s| as real, Miss(s, a, b));
  }

  // ------------------------------------------------------------------ the slope without means

  /** Sum of i * s[i]. */
  function Weighted(s: seq<real>): real {
    if s == [] then 0.0 else Weighted(s[..|s| - 1]) + Times((|s| - 1) as real, s[|s| - 1])
  }

  function RiseFromSums(n: real, weighted: real, total: real): real {
    n * weighted - Triangle(n) * total
  }

  /** n * sum(i * y) - sum(i) * sum(y): the sign-carrying part of the slope. */
  function Rise(s: seq<real>): real {
    RiseFromSums(|s| as real, Weighted(s), Sum(s))
  }

  function CrossFromSums(n: real, weighted: real, total: real, xm: real, ym: real): real {
    weighted - xm * total - ym * (Triangle(n) - n * xm)
  }

  lemma CrossStep(n: real, weighted: real, total: real, xm: real, ym: real, v: real)
    ensures CrossFromSums(n + 1.0, weighted + Times(n, v), total + v, xm, ym)
            == CrossFromSums(n, weighted, total, xm, ym) + Times(n - xm, v - ym)
    ensures CrossFromSums(0.0, 0.0, 0.0, xm, ym) == 0.0
  {
  }

  lemma {:induction false} CrossIsWeighted(s: seq<real>, xm: real, ym: real)
    ensures Cross(s, xm, ym) == CrossFromSums(|s| as real, Weighted(s), Sum(s), xm, ym)
  {
    hide CrossFromSums, Times;
    CrossStep(0.0, 0.0, 0.0, xm, ym, 0.0);
    if s != [] {
      var front := s[..|s| - 1];
      CrossIsWeighted(front, xm, ym);
      CrossStep(|front| as real, Weighted(front), Sum(front), xm, ym, s[|s| - 1]);
      assert |s| as real == |front| as real + 1.0;
    }
  }

  lemma RiseAboutMean(n: real, weighted: real, total: real, ym: real)
    ensures Times(n, CrossFromSums(n, weighted, total, (n - 1.0) / 2.0, ym)) == RiseFromSums(n, weighted, total)
  {
  }

  lemma CancelFactor(n: real, x: real, d: real)
    requires n > 0.0 && d > 0.0
    ensures Times(n, d) > 0.0
    ensures x / d == Times(n, x) / Times(n, d)
  {
    var q := x / d;
    assert q * d == x;
    assert n * x == q * (n * d);
  }

  lemma SlopeIsRise(s: seq<real>)
    requires |s| >= 2
    ensures Times(|s| as real, SpreadOf(|s| as real)) > 0.0
    ensures Slope(s) == Rise(s) / Times(|s| as real, SpreadOf(|s| as real))
  {
    hide Times, CrossFromSums, RiseFromSums, SpreadOf, Average;
    var n, xm := |s| as real, MidIndex(|s|);
    CrossIsWeighted(s, xm, Average(s));
    SpreadAboutMean(|s|);
    RiseAboutMean(n, Weighted(s), Sum(s), Average(s));
    CancelFactor(n, Cross(s, xm, Average(s)), SpreadOf(n));
  }

  // ------------------------------------------------------------------ sign

  ghost predicate NonDecreasing(s: seq<real>) {
    forall i, j :: 0 <= i < j < |s| ==> s[i] <= s[j]
  }

  /** Sum of (m - i) * (v - s[i]): how much a new value v lifts the rise. */
  function Lift(s: seq<real>, v: real, m: real): real {
    if s == [] then 0.0
    else Lift(s[..|s| - 1], v, m) + Times(m - (|s| - 1) as real, v - s[|s| - 1])
  }

  function LiftFromSums(n: real, weighted: real, total: real, v: real, m: real): real {
    v * (m * n - Triangle(n)) - m * total + weighted
  }

  lemma LiftStep(n: real, weighted: real, total: real, v: real, m: real, x: real)
    ensures LiftFromSums(n + 1.0, weighted + Times(n, x), total + x, v, m)
            == LiftFromSums(n, weighted, total, v, m) + Times(m - n, v - x)
    ensures LiftFromSums(0.0, 0.0, 0.0, v, m) == 0.0
  {
  }

  lemma {:induction false} LiftClosedForm(s: seq<real>, v: real, m: real)
    ensures Lift(s, v, m) == LiftFromSums(|s| as real, Weighted(s), Sum(s), v, m)
  {
    hide LiftFromSums, Times;
    LiftStep(0.0, 0.0, 0.0, v, m, 0.0);
    if s != [] {
      var front := s[..|s| - 1];
      LiftClosedForm(front, v, m);
      LiftStep(|front| as real, Weighted(front), Sum(front), v, m, s[|s| - 1]);
      assert |s| as real == |front| as real + 1.0;
    }
  }

  lemma RiseLifted(n: real, weighted: real, total: real, v: real)
    ensures RiseFromSums(n + 1.0, weighted + Times(n, v), total + v)
            == RiseFromSums(n, weighted, total) + LiftFromSums(n, weighted, total, v, n)
    ensures RiseFromSums(0.0, 0.0, 0.0) == 0.0
  {
  }

  lemma RiseStep(s: seq<real>)
    ensures s == [] ==> Rise(s) == 0.0
    ensures s != [] ==> Rise(s) == Rise(s[..|s| - 1]) + Lift(s[..|s| - 1], s[|s| - 1], (|s| - 1) as real)
  {
    hide RiseFromSums, LiftFromSums, Times;
    RiseLifted(0.0, 0.0, 0.0, 0.0);
    if s != [] {
      var front, v := s[..|s| - 1], s[|s| - 1];
      LiftClosedForm(front, v, |front| as real);
      RiseLifted(|front| as real, Weighted(front), Sum(front), v);
      assert |s| as real == |front| as real + 1.0;
    }
  }

  lemma {:induction false} LiftNonNegative(s: seq<real>, v: real, m: real)
    requires m >= |s| as real && forall i :: 0 <= i < |s| ==> s[i] <= v
    ensures Lift(s, v, m) >= 0.0
    ensures s != [] && m > 0.0 && s[0] < v ==> Lift(s, v, m) > 0.0
  {
    hide Times;
    if s != [] {
      LiftNonNegative(s[..|s| - 1], v, m);
      TimesNonNegative(m - (|s| - 1) as real, v - s[|s| - 1]);
      if |s| == 1 && m > 0.0 && s[0] < v {
        TimesPositive(m - 0.0, v - s[0]);
      }
    }
  }

  lemma {:induction false} RiseOfNonDecreasing(s: seq<real>)
    requires NonDecreasing(s)
    ensures Rise(s) >= 0.0
    ensures s != [] && s[0] < s[|s| - 1] ==> Rise(s) > 0.0
  {
    hide Rise, Lift;
    RiseStep(s);
    if s != [] {
      RiseOfNonDecreasing(s[..|s| - 1]);
      LiftNonNegative(s[..|s| - 1], s[|s| - 1], (|s| - 1) as real);
    }
  }

  lemma TimesZero(x: real)
    ensures Times(x, 0.0) == 0.0
  {
  }

  lemma {:induction false} LiftOfConstant(s: seq<real>, v: real, m: real)
    requires forall i :: 0 <= i < |s| ==> s[i] == v
    ensures Lift(s, v, m) == 0.0
  {
    hide Times;
    if s != [] {
      LiftOfConstant(s[..|s| - 1], v, m);
      TimesZero(m - (|s| - 1) as real);
    }
  }

  lemma {:induction false} RiseOfConstant(s: seq<real>, v: real)
    requires forall i :: 0 <= i < |s| ==> s[i] == v
    ensures Rise(s) == 0.0
  {
    hide Rise, Lift;
    RiseStep(s);
    if s != [] {
      RiseOfConstant(s[..|s| - 1], v);
      LiftOfConstant(s[..|s| - 1], v, (|s| - 1) as real);
    }
  }

  lemma QuotientSign(x: real, d: real)
    requires d > 0.0
    ensures x >= 0.0 ==> x / d >= 0.0
    ensures x > 0.0 <==> x / d > 0.0
  {
  }

  /** A series that never falls has a non-negative slope, positive exactly when it rises somewhere. */
  lemma SlopeSign(s: seq<real>)
    requires NonDecreasing(s)
    ensures Slope(s) >= 0.0
    ensures Slope(s) > 0.0 <==> exists i, j :: 0 <= i < j < |s| && s[i] < s[j]
  {
    if |s| >= 2 {
      hide Rise, Slope, Times, SpreadOf;
      RiseOfNonDecreasing(s);
      SlopeIsRise(s);
      QuotientSign(Rise(s), Times(|s| as real, SpreadOf(|s| as real)));
      if s[0] == s[|s| - 1] {
        RiseOfConstant(s, s[0]);
      }
    }
  }

  // ------------------------------------------------------------------ symmetry

  function Affine(s: seq<real>, c: real, b: real): (r: seq<real>)
    ensures |r| == |s|
    ensures forall i :: 0 <= i < |s| ==> r[i] == Line(c, b, s[i])
  {
    seq(|s|, i requires 0 <= i < |s| => Line(c, b, s[i]))
  }

  lemma AffineFront(s: seq<real>, c: real, b: real)
    requires s != []
    ensures Affine(s, c, b)[..|s| - 1] == Affine(s[..|s| - 1], c, b)
  {
    hide Line;
  }

  /** c * x + b * y. */
  function Combine(c: real, x: real, b: real, y: real): real {
    c * x + b * y
  }

  lemma AffineStep(n: real, c: real, b: real, v: real, weighted: real, total: real)
    ensures Combine(c, Triangle(n + 1.0), b, weighted + Times(n, v))
            == Combine(c, Triangle(n), b, weighted) + Times(n, Line(c, b, v))
    ensures Combine(c, n + 1.0, b, total + v) == Combine(c, n, b, total) + Line(c, b, v)
    ensures Combine(c, Triangle(0.0), b, 0.0) == 0.0 && Combine(c, 0.0, b, 0.0) == 0.0
  {
  }

  lemma {:induction false} AffineSums(s: seq<real>, c: real, b: real)
    ensures Sum(Affine(s, c, b)) == Combine(c, |s| as real, b, Sum(s))
    ensures Weighted(Affine(s, c, b)) == Combine(c, Triangle(|s| as real), b, Weighted(s))
  {
    hide Triangle, Combine, Times, Line;
    AffineStep(0.0, c, b, 0.0, 0.0, 0.0);
    if s != [] {
      var front := s[..|s| - 1];
      AffineSums(front, c, b);
      AffineFront(s, c, b);
      AffineStep(|front| as real, c, b, s[|s| - 1], Weighted(front), Sum(front));
      assert |s| as real == |front| as real + 1.0;
    }
  }

  lemma RiseScales(n: real, c: real, b: real, weighted: real, total: real)
    ensures RiseFromSums(n, Combine(c, Triangle(n), b, weighted), Combine(c, n, b, total))
            == Times(b, RiseFromSums(n, weighted, total))
  {
  }

  lemma ScaleQuotient(b: real, x: real, d: real)
    requires d > 0.0
    ensures Times(b, x) / d == Times(b, x / d)
  {
    var q := x / d;
    assert q * d == x;
    assert b * x == (b * q) * d;
  }

  /** Shifting a series leaves its slope alone; scaling it scales the slope. */
  lemma SlopeOfAffine(s: seq<real>, c: real, b: real)
    ensures Slope(Affine(s, c, b)) == Times(b, Slope(s))
  {
    if |s| >= 2 {
      hide Times, RiseFromSums, Triangle, SpreadOf, Slope, Combine, Line;
      AffineSums(s, c, b);
      SlopeIsRise(s);
      SlopeIsRise(Affine(s, c, b));
      RiseScales(|s| as real, c, b, Weighted(s), Sum(s));
      ScaleQuotient(b, Rise(s), Times(|s| as real, SpreadOf(|s| as real)));
    }
  }

  lemma SquareIsTimes(x: real)
    ensures Square(x) == Times(x, x)
  {
  }

  lemma {:induction false} CrossOfIndices(n: nat, xm: real)
    ensures Cross(Arange(n), xm, xm) == Spread(n, xm)
  {
    hide Times, Square;
    if n > 0 {
      CrossOfIndices(n - 1, xm);
      ArangeFront(n);
      SquareIsTimes((n - 1) as real - xm);
    }
  }

  lemma SlopeOfIndices(n: nat)
    requires n >= 2
    ensures Slope(Arange(n)) == 1.0
  {
    hide SpreadOf, Average;
    MeanIndex(n);
    CrossOfIndices(n, MidIndex(n));
    SpreadAboutMean(n);
    QuotientIs(SpreadOf(n as real), SpreadOf(n as real), 1.0);
  }

  /** On the exact line a + b*i the statistic returns b. */
  lemma SlopeOfLine(n: nat, a: real, b: real)
    requires n >= 2
    ensures Slope(Affine(Arange(n), a, b)) == b
  {
    SlopeOfIndices(n);
    SlopeOfAffine(Arange(n), a, b);
  }

  lemma TimesStep(n: real, v: real)
    ensures Times(n + 1.0, v) == Times(n, v) + v
    ensures Times(0.0, v) == 0.0
  {
  }

  lemma {:induction false} PrependSums(v: real, s: seq<real>)
    ensures Sum([v] + s) == v + Sum(s)
    ensures Weighted([v] + s) == Weighted(s) + Sum(s)
  {
    hide Times;
    if s != [] {
      PrependSums(v, s[..|s| - 1]);
      assert ([v] + s)[..|s|] == [v] + s[..|s| - 1];
      TimesStep((|s| - 1) as real, s[|s| - 1]);
      assert |s| as real == (|s| - 1) as real + 1.0;
    } else {
      assert [v] + s == [v];
      TimesStep(0.0, v);
    }
  }

  /** (n - 1) * total - weighted. */
  function Mirror(n: real, weighted: real, total: real): real {
    (n - 1.0) * total - weighted
  }

  lemma MirrorStep(n: real, weighted: real, total: real, v: real)
    ensures Mirror(n, weighted, total) + total == Mirror(n + 1.0, weighted + Times(n, v), total + v)
    ensures Mirror(0.0, 0.0, 0.0) == 0.0
  {
  }

  lemma {:induction false} ReversedSums(s: seq<real>)
    ensures Sum(Reverse(s)) == Sum(s)
    ensures Weighted(Reverse(s)) == Mirror(|s| as real, Weighted(s), Sum(s))
  {
    hide Times, Mirror;
    MirrorStep(0.0, 0.0, 0.0, 0.0);
    if s != [] {
      var front, v := s[..|s| - 1], s[|s| - 1];
      ReversedSums(front);
      assert Reverse(s) == [v] + Reverse(front);
      PrependSums(v, Reverse(front));
      MirrorStep(|front| as real, Weighted(front), Sum(front), v);
      assert |s| as real == |front| as real + 1.0;
    }
  }

  lemma RiseReversed(n: real, weighted: real, total: real)
    ensures RiseFromSums(n, Mirror(n, weighted, total), total) == Times(-1.0, RiseFromSums(n, weighted, total))
  {
  }

  /** Played backwards, a series has the opposite slope. */
  lemma SlopeOfReversed(s: seq<real>)
    ensures Slope(Reverse(s)) == -Slope(s)
  {
    if |s| >= 2 {
      hide RiseFromSums, Mirror, SpreadOf, Slope;
      ReversedSums(s);
      SlopeIsRise(s);
      SlopeIsRise(Reverse(s));
      RiseReversed(|s| as real, Weighted(s), Sum(s));
      ScaleQuotient(-1.0, Rise(s), Times(|s| as real, SpreadOf(|s| as real)));
    }
  }
}
