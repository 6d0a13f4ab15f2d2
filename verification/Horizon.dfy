/** The logistic head, its calibration on nominal scores, and the false-positive bound that results. */
module Horizon {
  import opened Basics
  import opened Tables

  const P_FAIL_THRESHOLD: real := 0.7
  const TARGET_NOMINAL_FPR: real := 0.002
  const MAX_FPR: real := 0.02
  const EDGE: real := 0.000000001

  /** The exponential and the logarithm, known only by the laws below. */
  datatype Curves = Curves(exp: real -> real, log: real -> real)

  ghost predicate Lawful(c: Curves) {
    && (forall x, y :: x < y ==> c.exp(x) < c.exp(y))
    && (forall x :: c.exp(x) > 0.0)
    && (forall x :: c.log(c.exp(x)) == x)
    && (forall p :: p > 0.0 ==> c.exp(c.log(p)) == p)
    && (forall x :: c.exp(-x) * c.exp(x) == 1.0)
  }

  datatype Head = Head(k: real, s0: real)

  lemma DenominatorPositive(c: Curves, x: real)
    requires Lawful(c)
    ensures 1.0 + c.exp(x) > 0.0
  {
  }

  function Logistic(c: Curves, x: real): real
    requires Lawful(c)
  {
    DenominatorPositive(c, -x);
    1.0 / (1.0 + c.exp(-x))
  }

  /** How steeply far the score lies from the midpoint. */
  function Steepness(h: Head, s: real): real {
    h.k * (s - h.s0)
  }

  function Predict(c: Curves, h: Head, s: real): real
    requires Lawful(c)
  {
    Logistic(c, Steepness(h, s))
  }

  /** log(p / (1 - p)) / k, the distance from the midpoint to probability p. */
  function Offset(c: Curves, k: real, p: real): real
    requires 0.0 < p < 1.0 && k != 0.0
  {
    c.log(p / (1.0 - p)) / k
  }

  function Clamp(p: real): real {
    var low := if p < EDGE then EDGE else p;
    if low > 1.0 - EDGE then 1.0 - EDGE else low
  }

  function ScoreAtProbability(c: Curves, h: Head, p: real): real
    requires h.k != 0.0
  {
    h.s0 + Offset(c, h.k, Clamp(p))
  }

  // ------------------------------------------------------------------ the logistic curve

  lemma OddsPositive(p: real)
    requires 0.0 < p < 1.0
    ensures p / (1.0 - p) > 0.0
    ensures (p / (1.0 - p)) * (1.0 - p) == p
  {
  }

  lemma Reciprocal(e: real, f: real, p: real)
    requires e > 0.0 && f > 0.0 && e * f == 1.0 && 0.0 < p < 1.0
    ensures 1.0 / (1.0 + f) >= p <==> e * (1.0 - p) >= p
    ensures 1.0 / (1.0 + f) == p <==> e * (1.0 - p) == p
  {
    var q := 1.0 / (1.0 + f);
    assert q * (1.0 + f) == 1.0;
    assert q * (e + 1.0) == e by {
      assert q * (1.0 + f) * e == e;
      assert (1.0 + f) * e == e + 1.0;
      assert q * ((1.0 + f) * e) == e;
    }
    assert (q - p) * (e + 1.0) == e * (1.0 - p) - p;
    SignOfProduct(q - p, e + 1.0);
  }

  lemma SignOfProduct(x: real, y: real)
    requires y > 0.0
    ensures x * y >= 0.0 <==> x >= 0.0
    ensures x * y == 0.0 <==> x == 0.0
  {
  }

  /** Comparing a value of the exponential with the odds of p is comparing the arguments. */
  lemma ExpAgainstOdds(c: Curves, x: real, p: real)
    requires Lawful(c) && 0.0 < p < 1.0
    ensures c.exp(x) * (1.0 - p) >= p <==> x >= c.log(p / (1.0 - p))
    ensures c.exp(x) * (1.0 - p) == p <==> x == c.log(p / (1.0 - p))
  {
    var odds := p / (1.0 - p);
    OddsPositive(p);
    var y := c.log(odds);
    assert c.exp(y) == odds;
    var d := c.exp(x) - odds;
    assert d * (1.0 - p) == c.exp(x) * (1.0 - p) - p;
    SignOfProduct(d, 1.0 - p);
    assert x < y ==> c.exp(x) < c.exp(y);
    assert y < x ==> c.exp(y) < c.exp(x);
  }

  lemma ScaledAgainst(k: real, t: real, y: real)
    ensures k > 0.0 ==> (k * t >= y <==> t >= y / k)
    ensures k < 0.0 ==> (k * t >= y <==> t <= y / k)
  {
    if k != 0.0 {
      var q := y / k;
      assert q * k == y;
      assert (t - q) * k == k * t - y;
      assert (q - t) * -k == k * t - y;
      if k > 0.0 {
        SignOfProduct(t - q, k);
      } else {
        SignOfProduct(q - t, -k);
      }
    }
  }

  lemma LogisticReciprocal(c: Curves, x: real, p: real)
    requires Lawful(c) && 0.0 < p < 1.0
    ensures Logistic(c, x) >= p <==> c.exp(x) * (1.0 - p) >= p
    ensures Logistic(c, x) == p <==> c.exp(x) * (1.0 - p) == p
  {
    var e, f := c.exp(x), c.exp(-x);
    assert f * e == 1.0;
    Swap(e, f);
    Reciprocal(e, f, p);
  }

  lemma Swap(x: real, y: real)
    ensures x * y == y * x
  {
  }

  /** The logistic curve inverts the log-odds, in order and in value. */
  lemma LogisticAgainst(c: Curves, x: real, p: real)
    requires Lawful(c) && 0.0 < p < 1.0
    ensures Logistic(c, x) >= p <==> x >= c.log(p / (1.0 - p))
    ensures Logistic(c, x) == p <==> x == c.log(p / (1.0 - p))
  {
    hide Lawful, Logistic;
    LogisticReciprocal(c, x, p);
    ExpAgainstOdds(c, x, p);
  }

  lemma LogisticAtZero(c: Curves)
    requires Lawful(c)
    ensures Logistic(c, 0.0) == 0.5
  {
    var e := c.exp(0.0);
    assert -0.0 == 0.0;
    assert c.exp(-0.0) * c.exp(0.0) == 1.0;
    assert e * e == 1.0;
    assert (e - 1.0) * (e + 1.0) == 0.0;
    SignOfProduct(e - 1.0, e + 1.0);
  }

  /**
   * With a rising head a prediction reaches p exactly when the score reaches the midpoint plus the
   * offset of p, with a falling one exactly when it does not exceed it; a flat one predicts a half.
   */
  lemma AlarmIff(c: Curves, h: Head, s: real, p: real)
    requires Lawful(c) && 0.0 < p < 1.0
    ensures h.k > 0.0 ==> (Predict(c, h, s) >= p <==> s >= h.s0 + Offset(c, h.k, p))
    ensures h.k < 0.0 ==> (Predict(c, h, s) >= p <==> s <= h.s0 + Offset(c, h.k, p))
    ensures h.k == 0.0 ==> Predict(c, h, s) == 0.5
  {
    hide Lawful, Logistic, Steepness;
    LogisticAgainst(c, Steepness(h, s), p);
    SteepnessAgainst(h, s, c.log(p / (1.0 - p)));
    LogisticAtZero(c);
  }

  lemma SteepnessAgainst(h: Head, s: real, y: real)
    ensures h.k > 0.0 ==> (Steepness(h, s) >= y <==> s >= h.s0 + y / h.k)
    ensures h.k < 0.0 ==> (Steepness(h, s) >= y <==> s <= h.s0 + y / h.k)
    ensures h.k == 0.0 ==> Steepness(h, s) == 0.0
  {
    ScaledAgainst(h.k, s - h.s0, y);
  }

  /** Asking for the score of a probability and predicting it back returns the clamped probability. */
  lemma PredictInvertsScore(c: Curves, h: Head, p: real)
    requires Lawful(c) && h.k != 0.0
    ensures Predict(c, h, ScoreAtProbability(c, h, p)) == Clamp(p)
    ensures Predict(c, h, ScoreAtProbability(c, h, p)) == p <==> 0.000000001 <= p <= 0.999999999
    ensures p < 0.000000001 ==> Predict(c, h, ScoreAtProbability(c, h, p)) == 0.000000001
    ensures p > 0.999999999 ==> Predict(c, h, ScoreAtProbability(c, h, p)) == 0.999999999
  {
    hide Lawful, Logistic;
    var q := Clamp(p);
    var s := ScoreAtProbability(c, h, p);
    UndoQuotient(h.k, s - h.s0, c.log(q / (1.0 - q)));
    LogisticAgainst(c, Steepness(h, s), q);
  }

  lemma UndoQuotient(k: real, t: real, y: real)
    requires k != 0.0 && t == y / k
    ensures k * t == y
  {
  }

  // ------------------------------------------------------------------ quantiles

  function Sort(s: seq<real>): (r: seq<real>)
    ensures |r| == |s|
  {
    SortBy(s, Itself)
  }

  /** Where the quantile q of n ordered entries lies. */
  function Position(n: nat, q: real): real
    requires n >= 1
  {
    (n - 1) as real * q
  }

  /** The entry at a position, linear in between. */
  function Interpolated(a: seq<real>, pos: real): real
    requires a != [] && 0.0 <= pos <= (|a| - 1) as real
  {
    var lo := pos.Floor;
    if lo + 1 < |a| then a[lo] + (pos - lo as real) * (a[lo + 1] - a[lo]) else a[|a| - 1]
  }

  /** Interpolated quantile of an ordered sample: the entry at position (n - 1) * q. */
  function QuantileSorted(a: seq<real>, q: real): real
    requires a != [] && 0.0 <= q <= 1.0
  {
    PositionInside(|a|, q);
    Interpolated(a, Position(|a|, q))
  }

  lemma ProductNonNegative(x: real, y: real)
    requires x >= 0.0 && y >= 0.0
    ensures x * y >= 0.0
  {
  }

  lemma PositionInside(n: nat, q: real)
    requires n >= 1 && 0.0 <= q <= 1.0
    ensures 0.0 <= Position(n, q) <= (n - 1) as real
    ensures 0 <= Position(n, q).Floor <= n - 1
  {
    var last := (n - 1) as real;
    ProductNonNegative(last, q);
    ProductNonNegative(last, 1.0 - q);
    assert last * q + last * (1.0 - q) == last;
  }

  function Quantile(s: seq<real>, q: real): real
    requires s != [] && 0.0 <= q <= 1.0
  {
    QuantileSorted(Sort(s), q)
  }

  /** The quantile divides the distance between the two entries around position (n - 1) * q as the position does. */
  lemma QuantileIsLinear(s: seq<real>, q: real, k: nat, w: real)
    requires s != [] && 0.0 <= q <= 1.0
    requires k < |s| && 0.0 <= w < 1.0 && (|s| - 1) as real * q == k as real + w
    ensures k + 1 < |s| ==> Quantile(s, q) == (1.0 - w) * Sort(s)[k] + w * Sort(s)[k + 1]
    ensures k + 1 == |s| ==> Quantile(s, q) == Sort(s)[k]
  {
    hide Sort;
    var pos := Position(|s|, q);
    FloorIs(pos, k, w);
    if k + 1 < |s| {
      Mixed(Sort(s)[k], Sort(s)[k + 1], w);
    }
  }

  lemma FloorIs(x: real, k: nat, w: real)
    requires x == k as real + w && 0.0 <= w < 1.0
    ensures x.Floor == k
  {
  }

  lemma Mixed(a: real, b: real, w: real)
    ensures a + w * (b - a) == (1.0 - w) * a + w * b
  {
  }

  /** n scores from u on, d apart. */
  function Even(u: real, d: real, n: nat): (r: seq<real>)
    ensures |r| == n
    ensures forall i :: 0 <= i < n ==> r[i] == u + i as real * d
  {
    seq(n, i requires 0 <= i < n => u + i as real * d)
  }

  lemma EvenOrdered(u: real, d: real, n: nat)
    requires d >= 0.0
    ensures Ordered(Even(u, d, n), Itself)
  {
    forall i, j | 0 <= i < j < n
      ensures Itself(Even(u, d, n)[i]) <= Itself(Even(u, d, n)[j])
    {
      ProductNonNegative((j - i) as real, d);
      assert j as real * d - i as real * d == (j - i) as real * d;
    }
  }

  /** Of n evenly spaced scores, in any order, the quantile q is the first plus (n - 1) * q steps. */
  lemma QuantileOfEven(s: seq<real>, u: real, d: real, q: real)
    requires s != [] && d >= 0.0 && 0.0 <= q <= 1.0 && multiset(s) == multiset(Even(u, d, |s|))
    ensures Quantile(s, q) == u + ((|s| - 1) as real * q) * d
  {
    hide Even, Sort, Quantile;
    var pos := (|s| - 1) as real * q;
    PositionInside(|s|, q);
    EvenOrdered(u, d, |s|);
    SortIs(s, Even(u, d, |s|));
    var k := pos.Floor;
    var w := pos - k as real;
    QuantileIsLinear(s, q, k, w);
    EvenEntries(u, d, |s|, k);
    if k + 1 < |s| {
      StepsAddUp(u, d, k as real, w);
    } else {
      assert pos <= (|s| - 1) as real;
      assert w == 0.0;
    }
  }

  lemma EvenEntries(u: real, d: real, n: nat, k: nat)
    requires k < n
    ensures Even(u, d, n)[k] == u + k as real * d
    ensures k + 1 < n ==> Even(u, d, n)[k + 1] == u + (k as real + 1.0) * d
  {
  }

  lemma StepsAddUp(u: real, d: real, k: real, w: real)
    ensures (1.0 - w) * (u + k * d) + w * (u + (k + 1.0) * d) == u + (k + w) * d
  {
  }

  lemma SortIs(s: seq<real>, ordered: seq<real>)
    requires multiset(s) == multiset(ordered) && Ordered(ordered, Itself)
    ensures Sort(s) == ordered
  {
    SortSorts(s, Itself);
    ColumnIsUnique(Sort(s), ordered);
  }

  // ------------------------------------------------------------------ calibration

  /** The head after calibration on nominal scores. */
  function Calibrated(c: Curves, h: Head, nominal: seq<real>, target: real, threshold: real): Head
    requires nominal != [] && h.k > 0.0 ==> 0.0 <= target <= 1.0 && 0.0 < threshold < 1.0
  {
    if nominal == [] || h.k <= 0.0 then h
    else
      var needed := Quantile(nominal, 1.0 - target) - Offset(c, h.k, threshold);
      if needed > h.s0 then h.(s0 := needed) else h
  }

  /**
   * Of a rising head, calibration keeps the slope and moves the midpoint to the quantile less the
   * distance at which the head predicts the threshold, if that lies to the right.
   */
  lemma CalibratedIs(c: Curves, h: Head, nominal: seq<real>, target: real, threshold: real)
    requires nominal != [] && h.k > 0.0 && 0.0 <= target <= 1.0 && 0.0 < threshold < 1.0
    ensures var needed := Quantile(nominal, 1.0 - target) - c.log(threshold / (1.0 - threshold)) / h.k;
      && Calibrated(c, h, nominal, target, threshold).k == h.k
      && Calibrated(c, h, nominal, target, threshold).s0 == if needed > h.s0 then needed else h.s0
  {
  }

  /** The scores 0.00, 0.02, ..., 1.00 move the midpoint of a head of slope one to 0.998 - log(7/3). */
  lemma CalibratedOnEvenScores(c: Curves)
    requires 0.998 - c.log(0.7 / 0.3) > 0.0
    ensures Calibrated(c, Head(1.0, 0.0), Even(0.0, 0.02, 51), 0.002, 0.7) == Head(1.0, 0.998 - c.log(0.7 / 0.3))
  {
    hide Quantile, Even, Calibrated;
    QuantileOfEven(Even(0.0, 0.02, 51), 0.0, 0.02, 1.0 - 0.002);
    CalibratedIs(c, Head(1.0, 0.0), Even(0.0, 0.02, 51), 0.002, 0.7);
    assert 1.0 - 0.7 == 0.3;
  }

  /** How a calibration ends: normally, or with an error raised by the quantile or by the odds of the threshold. */
  datatype Ending = Returned | BadQuantile | BadOdds

  class HorizonHead {
    var k: real
    var s0: Option<real>  // None is plus infinity

    constructor (k: real, s0: real)
      ensures this.k == k && this.s0 == Some(s0)
    {
      this.k, this.s0 := k, Some(s0);
    }

    /**
     * An empty sample or a flat head ends it at once. A target outside 0..1 and a threshold of one
     * raise errors; a threshold of zero moves the midpoint to infinity; the odds of a threshold
     * outside 0..1 have no logarithm, and a comparison with what is not a number never moves it.
     */
    method CalibrateThreshold(c: Curves, nominal: seq<real>, target: real, threshold: real) returns (ending: Ending)
      modifies this`s0
      ensures ending == if nominal == [] || k <= 0.0 then Returned
                        else if !(0.0 <= target <= 1.0) then BadQuantile
                        else if threshold == 1.0 then BadOdds else Returned
      ensures nominal == [] || k <= 0.0 || ending != Returned || !(0.0 <= threshold <= 1.0) || old(s0) == None ==>
        s0 == old(s0)
      ensures nominal != [] && k > 0.0 && ending == Returned && threshold == 0.0 ==> s0 == None
      ensures nominal != [] && k > 0.0 && ending == Returned && 0.0 < threshold < 1.0 && old(s0).Some? ==>
        s0 == Some(Calibrated(c, Head(k, old(s0).value), nominal, target, threshold).s0)
    {
      if |nominal| == 0 || k <= 0.0 {
        return Returned;
      }
      if !(0.0 <= target <= 1.0) {
        return BadQuantile;
      }
      var required := Quantile(nominal, 1.0 - target);
      if threshold == 1.0 {
        return BadOdds;
      }
      if threshold == 0.0 {
        s0 := None;
      } else if 0.0 < threshold < 1.0 {
        var offset := c.log(threshold / (1.0 - threshold)) / k;
        var s0Needed := required - offset;
        if s0.Some? && s0Needed > s0.value {
          s0 := Some(s0Needed);
        }
      }
      return Returned;
    }
  }

  /** Scores at or above a cut-off. */
  function CountAtLeast(s: seq<real>, cut: real): (n: nat)
    ensures n <= |s|
  {
    if s == [] then 0 else CountAtLeast(s[..|s| - 1], cut) + if s[|s| - 1] >= cut then 1 else 0
  }

  /** Scores at or below a cut-off. */
  function CountAtMost(s: seq<real>, cut: real): (n: nat)
    ensures n <= |s|
  {
    if s == [] then 0 else CountAtMost(s[..|s| - 1], cut) + if s[|s| - 1] <= cut then 1 else 0
  }

  /** Nominal windows that still raise an alarm. */
  function Alarms(c: Curves, h: Head, s: seq<real>, p: real): nat
    requires Lawful(c)
  {
    if s == [] then 0 else Alarms(c, h, s[..|s| - 1], p) + if Predict(c, h, s[|s| - 1]) >= p then 1 else 0
  }

  function FalsePositiveRate(c: Curves, h: Head, s: seq<real>, p: real): real
    requires Lawful(c)
  {
    if s == [] then 0.0 else Alarms(c, h, s, p) as real / |s| as real
  }

  lemma {:induction false} AlarmsAreCounted(c: Curves, h: Head, s: seq<real>, p: real)
    requires Lawful(c) && 0.0 < p < 1.0
    ensures h.k > 0.0 ==> Alarms(c, h, s, p) == CountAtLeast(s, h.s0 + Offset(c, h.k, p))
    ensures h.k < 0.0 ==> Alarms(c, h, s, p) == CountAtMost(s, h.s0 + Offset(c, h.k, p))
    ensures h.k == 0.0 ==> Alarms(c, h, s, p) == if p <= 0.5 then |s| else 0
  {
    hide Lawful, Predict, Offset;
    if s != [] {
      AlarmsAreCounted(c, h, s[..|s| - 1], p);
      AlarmIff(c, h, s[|s| - 1], p);
    }
  }

  // ------------------------------------------------------------------ counting in sorted order

  lemma {:induction false} InsertCount(s: seq<real>, x: real, cut: real)
    ensures CountAtLeast(Insert(s, x, Itself), cut) == CountAtLeast(s, cut) + if x >= cut then 1 else 0
    ensures CountAtMost(Insert(s, x, Itself), cut) == CountAtMost(s, cut) + if x <= cut then 1 else 0
  {
    if s != [] && s[|s| - 1] > x {
      InsertCount(s[..|s| - 1], x, cut);
    }
  }

  lemma {:induction false} SortCount(s: seq<real>, cut: real)
    ensures CountAtLeast(Sort(s), cut) == CountAtLeast(s, cut)
    ensures CountAtMost(Sort(s), cut) == CountAtMost(s, cut)
  {
    hide Insert;
    if s != [] {
      SortCount(s[..|s| - 1], cut);
      InsertCount(Sort(s[..|s| - 1]), s[|s| - 1], cut);
    }
  }

  lemma SortOrdered(s: seq<real>)
    ensures Ordered(Sort(s), Itself)
    ensures forall y :: y in Sort(s) <==> y in s
  {
    SortSorts(s, Itself);
    forall y
      ensures y in Sort(s) <==> y in s
    {
      SortMembers(s, Itself, y);
    }
  }

  lemma SortDistinct(s: seq<real>)
    requires Distinct(s)
    ensures Distinct(Sort(s))
  {
    SortSorts(s, Itself);
    DistinctMultiset(s);
    DistinctMultiset(Sort(s));
  }

  /** In an ordered sample, at most m entries reach the cut-off exactly when the (m+1)-th largest does not. */
  lemma {:induction false} CountOrdered(a: seq<real>, cut: real, m: nat)
    requires Ordered(a, Itself)
    ensures CountAtLeast(a, cut) <= m <==> m >= |a| || a[|a| - 1 - m] < cut
    decreases |a|
  {
    if a != [] {
      var front := a[..|a| - 1];
      if m == 0 {
        NoneAtLeast(a, cut);
      } else {
        CountOrdered(front, cut, m - 1);
        CountOrdered(front, cut, m);
        if a[|a| - 1] < cut {
          NoneAtLeast(a, cut);
        }
      }
    }
  }

  lemma {:induction false} NoneAtLeast(a: seq<real>, cut: real)
    requires Ordered(a, Itself)
    ensures a != [] ==> (CountAtLeast(a, cut) == 0 <==> a[|a| - 1] < cut)
  {
    if |a| > 1 {
      NoneAtLeast(a[..|a| - 1], cut);
    }
  }

  /** And at most m do not exceed it exactly when the (m+1)-th smallest does. */
  lemma {:induction false} CountOrderedLow(a: seq<real>, cut: real, m: nat)
    requires Ordered(a, Itself)
    ensures CountAtMost(a, cut) <= m <==> m >= |a| || a[m] > cut
    decreases |a|
  {
    if a != [] {
      var front, last := a[..|a| - 1], a[|a| - 1];
      CountOrderedLow(front, cut, m);
      assert m < |a| ==> Itself(a[m]) <= Itself(last);
      if last <= cut {
        assert forall i :: 0 <= i < |a| ==> Itself(a[i]) <= Itself(last);
        AllAtMost(a, cut);
      }
    }
  }

  lemma {:induction false} AllAtMost(s: seq<real>, cut: real)
    requires forall i :: 0 <= i < |s| ==> s[i] <= cut
    ensures CountAtMost(s, cut) == |s|
  {
    if s != [] {
      AllAtMost(s[..|s| - 1], cut);
    }
  }

  // ------------------------------------------------------------------ the bound

  /** 1 + floor((n - 1) * target): what the calibration is meant to leave above the threshold. */
  function Allowed(n: nat, target: real): int {
    1 + ((n - 1) as real * target).Floor
  }

  lemma AllowedRange(n: nat, target: real)
    requires n >= 1 && 0.0 <= target <= 1.0
    ensures 1 <= Allowed(n, target) <= n
  {
    PositionInside(n, target);
  }

  /** Position of the quantile in terms of the allowance. */
  lemma QuantilePosition(n: nat, target: real)
    requires n >= 1 && 0.0 <= target <= 1.0
    ensures var pos := Position(n, 1.0 - target);
      if pos == pos.Floor as real then pos.Floor == n - Allowed(n, target) else pos.Floor == n - 1 - Allowed(n, target)
  {
    var up := (n - 1) as real * target;
    var pos := (n - 1) as real * (1.0 - target);
    assert pos == (n - 1) as real - up;
    assert up.Floor as real <= up < up.Floor as real + 1.0;
    assert pos.Floor as real <= pos < pos.Floor as real + 1.0;
  }

  lemma Between(a: real, b: real, w: real)
    requires a <= b && 0.0 < w < 1.0
    ensures a <= a + w * (b - a) <= b
    ensures a < b ==> a < a + w * (b - a) < b
  {
    SignOfProduct(b - a, w);
    SignOfProduct(b - a, 1.0 - w);
    assert w * (b - a) + (1.0 - w) * (b - a) == b - a;
  }

  /** A whole position picks that entry; any other a value between its neighbours, above the lower if they differ. */
  lemma InterpolatedAt(a: seq<real>, pos: real)
    requires a != [] && Ordered(a, Itself) && 0.0 <= pos <= (|a| - 1) as real
    ensures 0 <= pos.Floor <= |a| - 1
    ensures pos == pos.Floor as real ==> Interpolated(a, pos) == a[pos.Floor]
    ensures pos != pos.Floor as real ==>
      && pos.Floor + 1 < |a| && a[pos.Floor] <= Interpolated(a, pos) <= a[pos.Floor + 1]
      && (a[pos.Floor] < a[pos.Floor + 1] ==> a[pos.Floor] < Interpolated(a, pos))
  {
    var lo := pos.Floor;
    if pos != lo as real {
      assert Itself(a[lo]) <= Itself(a[lo + 1]);
      Between(a[lo], a[lo + 1], pos - lo as real);
    } else if lo + 1 < |a| {
      assert (pos - lo as real) * (a[lo + 1] - a[lo]) == 0.0;
    } else {
      assert lo == |a| - 1;
    }
  }

  /**
   * The quantile lies at or below the m-th largest score, and strictly above the next one down
   * exactly when those two differ (m being the allowance).
   */
  lemma QuantileSeparates(a: seq<real>, target: real)
    requires a != [] && Ordered(a, Itself) && 0.0 <= target <= 1.0
    ensures 1 <= Allowed(|a|, target) <= |a|
    ensures QuantileSorted(a, 1.0 - target) <= a[|a| - Allowed(|a|, target)]
    ensures Allowed(|a|, target) < |a| ==>
      (a[|a| - 1 - Allowed(|a|, target)] < QuantileSorted(a, 1.0 - target)
       <==> a[|a| - 1 - Allowed(|a|, target)] < a[|a| - Allowed(|a|, target)])
  {
    hide Interpolated, Allowed, Position;
    var m, pos := Allowed(|a|, target), Position(|a|, 1.0 - target);
    AllowedRange(|a|, target);
    QuantilePosition(|a|, target);
    PositionInside(|a|, 1.0 - target);
    InterpolatedAt(a, pos);
    if pos == pos.Floor as real {
      assert QuantileSorted(a, 1.0 - target) == a[|a| - m];
    } else {
      assert pos.Floor == |a| - 1 - m;
    }
  }

  /** The scores around the calibration cut are told apart. */
  ghost predicate Separated(s: seq<real>, target: real)
    requires s != [] && 0.0 <= target <= 1.0
  {
    AllowedRange(|s|, target);
    var a, m := Sort(s), Allowed(|s|, target);
    m < |a| ==> a[|a| - 1 - m] < a[|a| - m]
  }

  /** Whether calibration has to move the midpoint. */
  predicate Moves(c: Curves, h: Head, s: seq<real>, target: real, threshold: real)
    requires s != [] && 0.0 <= target <= 1.0 && 0.0 < threshold < 1.0 && h.k > 0.0
  {
    Quantile(s, 1.0 - target) - Offset(c, h.k, threshold) > h.s0
  }

  /** The score from which a window raises an alarm after calibration. */
  function Cut(c: Curves, h: Head, s: seq<real>, target: real, threshold: real): real
    requires s != [] && 0.0 <= target <= 1.0 && 0.0 < threshold < 1.0 && h.k > 0.0
  {
    if Moves(c, h, s, target, threshold) then Quantile(s, 1.0 - target) else h.s0 + Offset(c, h.k, threshold)
  }

  /** That is the greater of the quantile and the score the head raised alarms from before. */
  lemma CutIsGreater(c: Curves, h: Head, s: seq<real>, target: real, threshold: real)
    requires s != [] && 0.0 <= target <= 1.0 && 0.0 < threshold < 1.0 && h.k > 0.0
    ensures var cut := Cut(c, h, s, target, threshold);
      var q, was := Quantile(s, 1.0 - target), h.s0 + Offset(c, h.k, threshold);
      cut >= q && cut >= was && (cut == q || cut == was)
    ensures Calibrated(c, h, s, target, threshold).s0 + Offset(c, h.k, threshold) == Cut(c, h, s, target, threshold)
  {
    hide Quantile, Offset;
  }

  /** The score that decides whether more than m alarms are left, if there are more than m scores, is no alarm. */
  predicate Spared(c: Curves, h: Head, s: seq<real>, target: real, threshold: real, m: nat)
    requires m < |s| && 0.0 <= target <= 1.0 && 0.0 < threshold < 1.0
  {
    if h.k > 0.0 then Sort(s)[|s| - 1 - m] < Cut(c, h, s, target, threshold)
    else if h.k < 0.0 then Sort(s)[m] > h.s0 + Offset(c, h.k, threshold)
    else threshold > 0.5
  }

  /**
   * For any head and any scores, tied or not, and a midpoint that moves or stays: at most m alarms are
   * left on the nominal scores exactly when the deciding one is none. With a rising head that is the
   * (m+1)-th largest, to lie below the cut; a falling one is never calibrated, and there it is the
   * (m+1)-th smallest, to lie above; a flat one is alarmed by everything or nothing.
   */
  lemma AlarmsAtMostIff(c: Curves, h: Head, s: seq<real>, target: real, threshold: real, m: nat)
    requires Lawful(c) && s != [] && 0.0 <= target <= 1.0 && 0.0 < threshold < 1.0
    ensures Alarms(c, Calibrated(c, h, s, target, threshold), s, threshold) <= m
            <==> m >= |s| || Spared(c, h, s, target, threshold, m)
  {
    hide Lawful, Alarms, Offset, Sort, Quantile, Moves, Cut;
    AlarmsAreCounted(c, Calibrated(c, h, s, target, threshold), s, threshold);
    SortOrdered(s);
    if h.k > 0.0 {
      var cut := Cut(c, h, s, target, threshold);
      CutIsGreater(c, h, s, target, threshold);
      SortCount(s, cut);
      CountOrdered(Sort(s), cut, m);
    } else if h.k < 0.0 {
      var cut := h.s0 + Offset(c, h.k, threshold);
      SortCount(s, cut);
      CountOrderedLow(Sort(s), cut, m);
    }
  }

  /**
   * The alarms left stay within the allowance exactly when the score that decides it is no alarm. With
   * a rising head that is so whenever the two scores around the cut differ; and if the midpoint moves,
   * only then, and exactly the allowance is left.
   */
  lemma CalibrationBoundIff(c: Curves, h: Head, s: seq<real>, target: real, threshold: real)
    requires Lawful(c) && s != [] && 0.0 <= target <= 1.0 && 0.0 < threshold < 1.0
    ensures var m, left := Allowed(|s|, target), Alarms(c, Calibrated(c, h, s, target, threshold), s, threshold);
      && 1 <= m <= |s|
      && (left <= m <==> m == |s| || Spared(c, h, s, target, threshold, m))
      && (h.k > 0.0 && Separated(s, target) ==> left <= m)
      && (h.k > 0.0 && Moves(c, h, s, target, threshold) ==> left >= m && (left <= m <==> Separated(s, target)))
  {
    hide Lawful, Alarms, Predict, Offset, Sort, Allowed, QuantileSorted, Calibrated;
    var m := Allowed(|s|, target);
    AllowedRange(|s|, target);
    AlarmsAtMostIff(c, h, s, target, threshold, m);
    AlarmsAtMostIff(c, h, s, target, threshold, m - 1);
    SortOrdered(s);
    QuantileSeparates(Sort(s), target);
    if h.k > 0.0 {
      CutIsGreater(c, h, s, target, threshold);
    }
  }

  /** Distinct nominal scores are always separated. */
  lemma DistinctSeparated(s: seq<real>, target: real)
    requires s != [] && Distinct(s) && 0.0 <= target <= 1.0
    ensures Separated(s, target)
  {
    hide Sort, Allowed;
    AllowedRange(|s|, target);
    SortDistinct(s);
    SortOrdered(s);
  }

  /** After calibration on distinct scores at most 1 + floor((n-1) * target) of them still raise an alarm. */
  lemma CalibrationBound(c: Curves, h: Head, s: seq<real>, target: real, threshold: real)
    requires Lawful(c) && s != [] && h.k > 0.0 && 0.0 <= target <= 1.0 && 0.0 < threshold < 1.0
    requires Distinct(s)
    ensures Alarms(c, Calibrated(c, h, s, target, threshold), s, threshold) <= Allowed(|s|, target)
    ensures Moves(c, h, s, target, threshold) ==>
      Alarms(c, Calibrated(c, h, s, target, threshold), s, threshold) == Allowed(|s|, target)
  {
    hide Lawful, Alarms, Predict, Offset, Sort, Allowed, QuantileSorted, Separated, Calibrated, Moves, Cut;
    DistinctSeparated(s, target);
    CalibrationBoundIff(c, h, s, target, threshold);
  }

  /** If all nominal scores are equal, calibration leaves every one of them on the alarm side. */
  lemma EqualScoresAllAlarm(c: Curves, h: Head, s: seq<real>, v: real)
    requires Lawful(c) && |s| >= 2 && h.k > 0.0
    requires forall i :: 0 <= i < |s| ==> s[i] == v
    requires Moves(c, h, s, TARGET_NOMINAL_FPR, P_FAIL_THRESHOLD)
    ensures Alarms(c, Calibrated(c, h, s, TARGET_NOMINAL_FPR, P_FAIL_THRESHOLD), s, P_FAIL_THRESHOLD) == |s|
  {
    hide Lawful, Alarms, Predict, Offset, Sort, QuantileSorted, Allowed;
    var target, threshold := TARGET_NOMINAL_FPR, P_FAIL_THRESHOLD;
    var h1, cut := Calibrated(c, h, s, target, threshold), Quantile(s, 1.0 - target);
    AlarmsAreCounted(c, h1, s, threshold);
    SortOrdered(s);
    QuantileSeparates(Sort(s), target);
    assert Sort(s)[|s| - Allowed(|s|, target)] in s;
    assert cut <= v;
    AllAtLeast(s, cut);
  }

  lemma {:induction false} AllAtLeast(s: seq<real>, cut: real)
    requires forall i :: 0 <= i < |s| ==> s[i] >= cut
    ensures CountAtLeast(s, cut) == |s|
  {
    if s != [] {
      AllAtLeast(s[..|s| - 1], cut);
    }
  }

  // ------------------------------------------------------------------ the 2% gate

  /** With the shipped target the allowance meets the 2% gate exactly from 50 windows on. */
  lemma AllowanceMeetsGate(n: nat)
    requires n >= 1
    ensures Allowed(n, TARGET_NOMINAL_FPR) as real <= MAX_FPR * n as real <==> n >= 50
  {
    var x := (n - 1) as real * TARGET_NOMINAL_FPR;
    assert x == (n - 1) as real / 500.0;
    assert x.Floor as real <= x < x.Floor as real + 1.0;
    if n < 100 {
      assert x.Floor == 0;
    }
  }

  lemma RateAgainstGate(k: nat, n: nat)
    requires n >= 1
    ensures k as real / n as real <= MAX_FPR <==> k as real <= MAX_FPR * n as real
  {
    var q := k as real / n as real;
    assert q * n as real == k as real;
    SignOfProduct(MAX_FPR - q, n as real);
    assert (MAX_FPR - q) * n as real == MAX_FPR * n as real - k as real;
  }

  /** The most alarms the gate lets pass among n windows. */
  function GateCount(n: nat): nat {
    (MAX_FPR * n as real).Floor
  }

  /**
   * Whatever the head and the scores, the head meets the 2% gate on its nominal windows exactly when
   * the score that decides whether more alarms are left than the gate lets pass is no alarm.
   */
  lemma GateIff(c: Curves, h: Head, s: seq<real>)
    requires Lawful(c) && s != []
    ensures GateCount(|s|) < |s|
    ensures var h1 := Calibrated(c, h, s, TARGET_NOMINAL_FPR, P_FAIL_THRESHOLD);
      FalsePositiveRate(c, h1, s, P_FAIL_THRESHOLD) <= MAX_FPR
      <==> Spared(c, h, s, TARGET_NOMINAL_FPR, P_FAIL_THRESHOLD, GateCount(|s|))
  {
    hide Lawful, Alarms, Predict, Offset, Sort, Calibrated, Moves, Cut, Spared;
    var h1 := Calibrated(c, h, s, TARGET_NOMINAL_FPR, P_FAIL_THRESHOLD);
    AlarmsAtMostIff(c, h, s, TARGET_NOMINAL_FPR, P_FAIL_THRESHOLD, GateCount(|s|));
    RateAgainstGate(Alarms(c, h1, s, P_FAIL_THRESHOLD), |s|);
  }

  /** A falling head is left as it is and can be alarmed by every nominal score, distinct or not. */
  lemma FallingHeadAllAlarm(c: Curves, h: Head, s: seq<real>)
    requires Lawful(c) && s != [] && h.k < 0.0
    requires forall i :: 0 <= i < |s| ==> s[i] <= h.s0 + Offset(c, h.k, P_FAIL_THRESHOLD)
    ensures var h1 := Calibrated(c, h, s, TARGET_NOMINAL_FPR, P_FAIL_THRESHOLD);
      h1 == h && Alarms(c, h1, s, P_FAIL_THRESHOLD) == |s| && FalsePositiveRate(c, h1, s, P_FAIL_THRESHOLD) > MAX_FPR
  {
    hide Lawful, Alarms, Predict, Offset;
    AlarmsAreCounted(c, h, s, P_FAIL_THRESHOLD);
    AllAtMost(s, h.s0 + Offset(c, h.k, P_FAIL_THRESHOLD));
    RateAgainstGate(|s|, |s|);
  }

  /**
   * If the scores around the cut differ, as distinct ones do, a rising head meets the 2% gate from 50
   * windows on; 50 is also the least number that will do once calibration has had to move the midpoint.
   */
  lemma GateHolds(c: Curves, h: Head, s: seq<real>)
    requires Lawful(c) && s != [] && h.k > 0.0 && Separated(s, TARGET_NOMINAL_FPR)
    ensures var h1 := Calibrated(c, h, s, 0.002, 0.7);
      && (|s| >= 50 ==> FalsePositiveRate(c, h1, s, 0.7) <= 0.02)
      && (Moves(c, h, s, TARGET_NOMINAL_FPR, P_FAIL_THRESHOLD) ==>
            (FalsePositiveRate(c, h1, s, 0.7) <= 0.02 <==> |s| >= 50))
  {
    hide Lawful, Alarms, Predict, Offset, Sort, Allowed, Calibrated, Moves, Separated, Cut;
    var h1 := Calibrated(c, h, s, TARGET_NOMINAL_FPR, P_FAIL_THRESHOLD);
    CalibrationBoundIff(c, h, s, TARGET_NOMINAL_FPR, P_FAIL_THRESHOLD);
    AllowanceMeetsGate(|s|);
    RateAgainstGate(Alarms(c, h1, s, P_FAIL_THRESHOLD), |s|);
  }

  /** As the committed report prints it. */
  const REPORTED_FPR: real := 0.0020034843205574914

  /**
   * The committed report's corpus: 11480 nominal windows with different scores around the cut leave
   * exactly 23 alarms, and the reported rate is 23/11480 to within half the spacing of doubles.
   */
  lemma CommittedReport(c: Curves, h: Head, s: seq<real>)
    requires Lawful(c) && |s| == 11480 && h.k > 0.0 && Separated(s, TARGET_NOMINAL_FPR)
    requires Moves(c, h, s, TARGET_NOMINAL_FPR, P_FAIL_THRESHOLD)
    ensures var h1 := Calibrated(c, h, s, 0.002, 0.7);
      && Alarms(c, h1, s, 0.7) == 23
      && FalsePositiveRate(c, h1, s, 0.7) == 23.0 / 11480.0
      && -0.0000000000000000002 < 23.0 / 11480.0 - REPORTED_FPR < 0.0000000000000000002
  {
    hide Lawful, Alarms, Predict, Offset, Sort, Calibrated, Moves, Separated, Cut;
    CalibrationBoundIff(c, h, s, TARGET_NOMINAL_FPR, P_FAIL_THRESHOLD);
    assert 11479.0 * TARGET_NOMINAL_FPR == 22.958;
  }
}
