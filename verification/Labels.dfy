/** Horizon labels: "a hard failure among the next H samples of the same source". */
module Labels {
  import opened Basics
  import opened Telemetry
  import opened Tables
  import opened Batch

  predicate IsHardFail(s: Sample, hardOsnrDb: real, hardBer: real) {
    s.osnrDb < hardOsnrDb || s.ber > hardBer
  }

  // ------------------------------------------------------------------ the column pipeline

  /** Largest of a non-empty column. */
  function Largest(s: seq<int>): int
    requires s != []
  {
    if |s| == 1 then s[0] else Max(Largest(s[..|s| - 1]), s[|s| - 1])
  }

  /** Entry k is the maximum of the last `window` entries up to k, fewer at the start. */
  function RollingMax(s: seq<int>, window: nat): (r: seq<int>)
    requires window >= 1
    ensures |r| == |s|
  {
    seq(|s|, k requires 0 <= k < |s| => Largest(s[Max(0, k + 1 - window)..k + 1]))
  }

  function Indicator(hf: seq<bool>): (r: seq<int>)
    ensures |r| == |hf|
    ensures forall i :: 0 <= i < |hf| ==> r[i] == if hf[i] then 1 else 0
  {
    Map(hf, (b: bool) => if b then 1 else 0)
  }

  /** Shift by one, reverse, rolling maximum, reverse. */
  function Future(hf: seq<bool>, horizon: nat): (y: seq<int>)
    requires horizon >= 1 && hf != []
    ensures |y| == |hf|
  {
    var next := Indicator(hf)[1..] + [0];
    Reverse(RollingMax(Reverse(next), horizon))
  }

  // ------------------------------------------------------------------ what the pipeline computes

  lemma {:induction false} LargestIs(s: seq<int>, b: int)
    requires s != [] && forall i :: 0 <= i < |s| ==> s[i] <= b
    ensures Largest(s) == b <==> b in s
    ensures Largest(s) <= b && Largest(s) in s
  {
    if |s| > 1 {
      LargestIs(s[..|s| - 1], b);
      assert s == s[..|s| - 1] + [s[|s| - 1]];
    }
  }

  /** Some later position within the horizon is a hard failure. */
  ghost predicate FailsWithin(hf: seq<bool>, i: nat, horizon: nat) {
    exists j :: i < j < |hf| && j <= i + horizon && hf[j]
  }

  /** The reversed column seen by the rolling maximum at row i. */
  function Span(hf: seq<bool>, horizon: nat, i: nat): (r: seq<int>)
    requires horizon >= 1 && i < |hf|
    ensures |r| == Min(horizon, |hf| - i)
  {
    var k := |hf| - 1 - i;
    Reverse(Indicator(hf)[1..] + [0])[Max(0, k + 1 - horizon)..k + 1]
  }

  lemma FutureIsLargest(hf: seq<bool>, horizon: nat, i: nat)
    requires horizon >= 1 && i < |hf|
    ensures Future(hf, horizon)[i] == Largest(Span(hf, horizon, i))
  {
    hide Largest;
  }

  /** Counted from its end, the span holds the indicators of rows i + 1, i + 2, ..., and 0 past the last row. */
  lemma SpanEntry(hf: seq<bool>, horizon: nat, i: nat, d: nat)
    requires horizon >= 1 && i < |hf| && 1 <= d <= |Span(hf, horizon, i)|
    ensures Span(hf, horizon, i)[|Span(hf, horizon, i)| - d] == if i + d < |hf| && hf[i + d] then 1 else 0
  {
    var next := Indicator(hf)[1..] + [0];
    var k := |hf| - 1 - i;
    assert Span(hf, horizon, i)[|Span(hf, horizon, i)| - d] == Reverse(next)[k + 1 - d] == next[i + d - 1];
  }

  /** The label at i is 1 exactly when one of the next `horizon` positions is a hard failure, and 0 otherwise. */
  lemma FutureMeansFailsWithin(hf: seq<bool>, horizon: nat, i: nat)
    requires horizon >= 1 && i < |hf|
    ensures Future(hf, horizon)[i] == if FailsWithin(hf, i, horizon) then 1 else 0
  {
    hide Future, Span, Largest;
    var span := Span(hf, horizon, i);
    FutureIsLargest(hf, horizon, i);
    forall m | 0 <= m < |span|
      ensures span[m] == if i + (|span| - m) < |hf| && hf[i + (|span| - m)] then 1 else 0
    {
      SpanEntry(hf, horizon, i, |span| - m);
    }
    LargestIs(span, 1);
    if FailsWithin(hf, i, horizon) {
      var j :| i < j < |hf| && j <= i + horizon && hf[j];
      assert span[|span| - (j - i)] == 1;
    }
  }

  // ------------------------------------------------------------------ seconds instead of samples

  /** The documented reading: a hard failure strictly later, at most `horizon` seconds away. */
  ghost predicate FailsWithinSeconds(hf: seq<bool>, ts: seq<int>, i: nat, horizon: nat)
    requires |ts| == |hf| && i < |hf|
  {
    exists j :: i < j < |hf| && 0 < ts[j] - ts[i] <= 1000 * horizon && hf[j]
  }

  /** The clock agrees with the sample count at every distance up to the horizon. */
  ghost predicate OnTheClock(ts: seq<int>, horizon: nat) {
    forall i, j :: 0 <= i < j < |ts| ==> (j - i <= horizon <==> 0 < ts[j] - ts[i] <= 1000 * horizon)
  }

  function SingleFailure(n: nat, j: nat): (r: seq<bool>)
    ensures |r| == n
    ensures forall i :: 0 <= i < n ==> (r[i] <==> i == j)
  {
    seq(n, i requires 0 <= i < n => i == j)
  }

  ghost predicate ReadingHolds(ts: seq<int>, horizon: nat)
    requires horizon >= 1
  {
    forall hf: seq<bool>, i: nat :: |hf| == |ts| && i < |hf| ==>
      (Future(hf, horizon)[i] == 1 <==> FailsWithinSeconds(hf, ts, i, horizon))
  }

  lemma ReadingOnTheClock(hf: seq<bool>, ts: seq<int>, i: nat, horizon: nat)
    requires horizon >= 1 && |hf| == |ts| && i < |hf| && OnTheClock(ts, horizon)
    ensures Future(hf, horizon)[i] == 1 <==> FailsWithinSeconds(hf, ts, i, horizon)
  {
    FutureMeansFailsWithin(hf, horizon, i);
  }

  lemma ReadingForcesClock(ts: seq<int>, horizon: nat, i: nat, j: nat)
    requires horizon >= 1 && i < j < |ts| && ReadingHolds(ts, horizon)
    ensures j - i <= horizon <==> 0 < ts[j] - ts[i] <= 1000 * horizon
  {
    hide Future;
    var hf := SingleFailure(|ts|, j);
    FutureMeansFailsWithin(hf, horizon, i);
    assert hf[j] && forall m :: 0 <= m < |hf| && hf[m] ==> m == j;
    assert FailsWithin(hf, i, horizon) <==> j <= i + horizon;
    assert FailsWithinSeconds(hf, ts, i, horizon) <==> 0 < ts[j] - ts[i] <= 1000 * horizon;
    assert Future(hf, horizon)[i] == 1 <==> FailsWithinSeconds(hf, ts, i, horizon);
  }

  /**
   * The code counts samples while its documentation speaks of seconds: the two agree on every
   * failure pattern exactly when every later sample within the horizon's count lies in the seconds
   * after the earlier one, and none beyond the count does.
   */
  lemma SecondsReadingIff(ts: seq<int>, horizon: nat)
    requires horizon >= 1
    ensures ReadingHolds(ts, horizon) <==> OnTheClock(ts, horizon)
  {
    if OnTheClock(ts, horizon) {
      forall hf: seq<bool>, i: nat | |hf| == |ts| && i < |hf|
        ensures Future(hf, horizon)[i] == 1 <==> FailsWithinSeconds(hf, ts, i, horizon)
      {
        ReadingOnTheClock(hf, ts, i, horizon);
      }
    }
    if ReadingHolds(ts, horizon) {
      forall i, j | 0 <= i < j < |ts|
        ensures j - i <= horizon <==> 0 < ts[j] - ts[i] <= 1000 * horizon
      {
        ReadingForcesClock(ts, horizon, i, j);
      }
    }
  }

  lemma {:induction false} EvenSpacing(ts: seq<int>, i: nat, j: nat)
    requires i <= j < |ts| && forall k :: 0 < k < |ts| ==> ts[k] - ts[k - 1] == 1000
    ensures ts[j] - ts[i] == 1000 * (j - i)
    decreases j
  {
    if i < j {
      EvenSpacing(ts, i, j - 1);
    }
  }

  /** One sample per second keeps the clock. */
  lemma OncePerSecondOnTheClock(ts: seq<int>, horizon: nat)
    requires forall k :: 0 < k < |ts| ==> ts[k] - ts[k - 1] == 1000
    ensures OnTheClock(ts, horizon)
  {
    forall i, j | 0 <= i < j < |ts|
      ensures j - i <= horizon <==> 0 < ts[j] - ts[i] <= 1000 * horizon
    {
      EvenSpacing(ts, i, j);
    }
  }

  /** A gap in the trace breaks the documented reading: the next sample counts however late it is. */
  lemma GapBreaksReading(t: int, gap: int, horizon: nat)
    requires horizon >= 1 && gap > 1000 * horizon
    ensures Future([false, true], horizon)[0] == 1
    ensures !FailsWithinSeconds([false, true], [t, t + gap], 0, horizon)
  {
    FutureMeansFailsWithin([false, true], horizon, 0);
    assert [false, true][1];
  }

  /** So does a repeated timestamp: a failure in the same instant is labelled as one still to come. */
  lemma TieBreaksReading(t: int, horizon: nat)
    requires horizon >= 1
    ensures Future([false, true], horizon)[0] == 1
    ensures !FailsWithinSeconds([false, true], [t, t], 0, horizon)
  {
    FutureMeansFailsWithin([false, true], horizon, 0);
    assert [false, true][1];
  }

  // ------------------------------------------------------------------ the labelled table

  function TimeColumn(rows: seq<Row>): int -> real {
    i => if 0 <= i < |rows| then RowTime(rows[i]) else 0.0
  }

  function IndicesBelow(rows: seq<Row>, k: Key, n: nat): (r: seq<int>)
    requires n <= |rows|
    ensures forall i :: 0 <= i < |r| ==> 0 <= r[i] < n && RowKey(rows[r[i]]) == k
  {
    if n == 0 then []
    else
      var before := IndicesBelow(rows, k, n - 1);
      if RowKey(rows[n - 1]) == k then before + [n - 1] else before
  }

  /** The row numbers of one source, sorted by timestamp. */
  function Order(sort: Sorter, rows: seq<Row>, k: Key): seq<int>
    requires Sorts(sort)
  {
    Arranged(IndicesBelow(rows, k, |rows|), sort, TimeColumn(rows))
  }

  lemma OrderRows(sort: Sorter, rows: seq<Row>, k: Key, p: nat)
    requires Sorts(sort)
    requires p < |Order(sort, rows, k)|
    ensures 0 <= Order(sort, rows, k)[p] < |rows| && RowKey(rows[Order(sort, rows, k)[p]]) == k
  {
    hide Sorts;
    ArrangedMembers(IndicesBelow(rows, k, |rows|), sort, TimeColumn(rows), Order(sort, rows, k)[p]);
  }

  lemma {:induction false} IndexPresent(rows: seq<Row>, k: Key, n: nat, r: nat)
    requires r < n <= |rows| && RowKey(rows[r]) == k
    ensures r in IndicesBelow(rows, k, n)
  {
    if r < n - 1 {
      IndexPresent(rows, k, n - 1, r);
    }
  }

  lemma RowInOrder(sort: Sorter, rows: seq<Row>, r: nat)
    requires Sorts(sort)
    requires r < |rows|
    ensures r in Order(sort, rows, RowKey(rows[r]))
  {
    var k := RowKey(rows[r]);
    IndexPresent(rows, k, |rows|, r);
    hide Sorts;
    ArrangedMembers(IndicesBelow(rows, k, |rows|), sort, TimeColumn(rows), r);
  }

  function PositionOf(s: seq<int>, x: int): (p: nat)
    requires x in s
    ensures p < |s| && s[p] == x
  {
    if s[0] == x then 0 else 1 + PositionOf(s[1..], x)
  }

  /** The hard-failure column of one source, in time order. */
  function FailColumn(sort: Sorter, rows: seq<Row>, k: Key, osnr: real, ber: real): (r: seq<bool>)
    requires Sorts(sort)
    ensures |r| == |Order(sort, rows, k)|
  {
    seq(|Order(sort, rows, k)|, p requires 0 <= p < |Order(sort, rows, k)| =>
      OrderRows(sort, rows, k, p); IsHardFail(rows[Order(sort, rows, k)[p]].sample, osnr, ber))
  }

  /** One row with its two label columns: compute per group in time order, put back in table order. */
  function LabelRow(sort: Sorter, rows: seq<Row>, horizon: nat, osnr: real, ber: real, r: nat): Row
    requires Sorts(sort)
    requires horizon >= 1 && r < |rows|
  {
    var k := RowKey(rows[r]);
    RowInOrder(sort, rows, r);
    rows[r].(extras := rows[r].extras.(
      hardFail := Some(IsHardFail(rows[r].sample, osnr, ber)),
      yHorizon := Some(Future(FailColumn(sort, rows, k, osnr, ber), horizon)[PositionOf(Order(sort, rows, k), r)])))
  }

  function AddHorizonLabels(sort: Sorter, rows: seq<Row>, horizon: nat, osnr: real, ber: real): (labelled: seq<Row>)
    requires Sorts(sort)
    requires horizon >= 1
    ensures |labelled| == |rows|
  {
    seq(|rows|, r requires 0 <= r < |rows| => LabelRow(sort, rows, horizon, osnr, ber, r))
  }

  lemma LabellingKeepsRows(sort: Sorter, rows: seq<Row>, horizon: nat, osnr: real, ber: real)
    requires Sorts(sort)
    requires horizon >= 1
    ensures Samples(AddHorizonLabels(sort, rows, horizon, osnr, ber)) == Samples(rows)
    ensures forall k :: Order(sort, AddHorizonLabels(sort, rows, horizon, osnr, ber), k) == Order(sort, rows, k)
  {
    hide Future, IsHardFail, FailColumn;
    var labelled := AddHorizonLabels(sort, rows, horizon, osnr, ber);
    assert forall r :: 0 <= r < |rows| ==> labelled[r].sample == rows[r].sample;
    forall k
      ensures Order(sort, labelled, k) == Order(sort, rows, k)
    {
      SameIndices(rows, labelled, k, |rows|);
      SameColumnSameOrder(IndicesBelow(rows, k, |rows|), sort, TimeColumn(rows), TimeColumn(labelled));
    }
  }

  lemma {:induction false} SameIndices(a: seq<Row>, b: seq<Row>, k: Key, n: nat)
    requires |a| == |b| && n <= |a| && forall r :: 0 <= r < |a| ==> a[r].sample == b[r].sample
    ensures IndicesBelow(a, k, n) == IndicesBelow(b, k, n)
  {
    if n > 0 {
      SameIndices(a, b, k, n - 1);
    }
  }

  lemma {:induction false} FetchIndices(rows: seq<Row>, k: Key, n: nat)
    requires rows != [] && n <= |rows|
    ensures Map(IndicesBelow(rows, k, n), At(rows)) == RowsOf(rows[..n], k)
  {
    hide RowKey, RowsOf;
    if n == 0 {
      NoRows(k);
    } else {
      FetchIndices(rows, k, n - 1);
      assert rows[..n] == rows[..n - 1] + [rows[n - 1]];
      RowsOfSnoc(rows[..n - 1], rows[n - 1], k);
      MapSnoc(IndicesBelow(rows, k, n - 1), n - 1, At(rows));
    }
  }

  lemma NoRows(k: Key)
    ensures RowsOf([], k) == []
  {
  }

  lemma RowsOfSnoc(rows: seq<Row>, r: Row, k: Key)
    ensures RowsOf(rows + [r], k) == if RowKey(r) == k then RowsOf(rows, k) + [r] else RowsOf(rows, k)
  {
    FilterSnoc(rows, r, (x: Row) => RowKey(x) == k);
  }

  /** The sorted group of the batch is the rows fetched in `Order`. */
  lemma GroupIsOrder(sort: Sorter, rows: seq<Row>, k: Key)
    requires Sorts(sort)
    requires rows != []
    ensures Group(sort, rows, k) == Map(Order(sort, rows, k), At(rows))
  {
    FetchIndices(rows, k, |rows|);
    assert rows[..|rows|] == rows;
    hide Sorts;
    ArrangedMapped(IndicesBelow(rows, k, |rows|), At(rows), sort, RowTime, TimeColumn(rows));
  }

  lemma {:induction false} IndicesDistinct(rows: seq<Row>, k: Key, n: nat)
    requires n <= |rows|
    ensures Distinct(IndicesBelow(rows, k, n))
  {
    if n > 0 {
      IndicesDistinct(rows, k, n - 1);
    }
  }

  lemma {:induction false} PositionUnique(s: seq<int>, p: nat)
    requires p < |s| && forall q :: 0 <= q < |s| && s[q] == s[p] ==> q == p
    ensures PositionOf(s, s[p]) == p
  {
  }

  lemma OrderDistinct(sort: Sorter, rows: seq<Row>, k: Key)
    requires Sorts(sort)
    ensures Distinct(Order(sort, rows, k))
  {
    var raw := IndicesBelow(rows, k, |rows|);
    IndicesDistinct(rows, k, |rows|);
    hide Sorts;
    ArrangedSorts(raw, sort, TimeColumn(rows));
    DistinctMultiset(raw);
    DistinctMultiset(Order(sort, rows, k));
  }

  ghost function FailsOf(group: seq<Row>, osnr: real, ber: real): (r: seq<bool>)
    ensures |r| == |group|
    ensures forall i :: 0 <= i < |r| ==> (r[i] <==> group[i].sample.osnrDb < osnr || group[i].sample.ber > ber)
  {
    Map(group, (r: Row) => IsHardFail(r.sample, osnr, ber))
  }

  /**
   * In a labelled table, the row at position p of a source's time-ordered group is labelled 1
   * exactly when one of the group's next `horizon` rows is a hard failure.
   */
  lemma LabelledGroup(sort: Sorter, rows: seq<Row>, horizon: nat, osnr: real, ber: real, k: Key, p: nat)
    requires Sorts(sort)
    requires horizon >= 1
    requires p < |Group(sort, AddHorizonLabels(sort, rows, horizon, osnr, ber), k)|
    ensures var group := Group(sort, AddHorizonLabels(sort, rows, horizon, osnr, ber), k);
      && group[p].extras.hardFail == Some(group[p].sample.osnrDb < osnr || group[p].sample.ber > ber)
      && group[p].extras.yHorizon == Some(if FailsWithin(FailsOf(group, osnr, ber), p, horizon) then 1 else 0)
  {
    hide Future, FailsWithin, Order, AddHorizonLabels;
    var labelled := AddHorizonLabels(sort, rows, horizon, osnr, ber);
    if rows == [] {
      EmptyGroup(sort, labelled, k);
      assert false;
    } else {
      LabelledOrder(sort, rows, horizon, osnr, ber, k, p);
      FutureMeansFailsWithin(FailColumn(sort, rows, k, osnr, ber), horizon, p);
    }
  }

  lemma EmptyGroup(sort: Sorter, rows: seq<Row>, k: Key)
    requires Sorts(sort)
    requires rows == []
    ensures Group(sort, rows, k) == []
  {
  }

  /** The labelled group is the labelled rows fetched in the order of the unlabelled table. */
  lemma LabelledFetched(sort: Sorter, rows: seq<Row>, horizon: nat, osnr: real, ber: real, k: Key)
    requires Sorts(sort)
    requires horizon >= 1 && rows != []
    ensures var labelled, order := AddHorizonLabels(sort, rows, horizon, osnr, ber), Order(sort, rows, k);
      && Group(sort, labelled, k) == Map(order, At(labelled))
      && |Group(sort, labelled, k)| == |order|
      && forall q :: 0 <= q < |order| ==>
           0 <= order[q] < |rows| && RowKey(rows[order[q]]) == k && Group(sort, labelled, k)[q] == labelled[order[q]]
  {
    hide Future, IsHardFail, Order, AddHorizonLabels, Group, RowKey;
    LabellingKeepsRows(sort, rows, horizon, osnr, ber);
    GroupIsOrder(sort, AddHorizonLabels(sort, rows, horizon, osnr, ber), k);
    forall q | 0 <= q < |Order(sort, rows, k)|
      ensures 0 <= Order(sort, rows, k)[q] < |rows| && RowKey(rows[Order(sort, rows, k)[q]]) == k
    {
      OrderRows(sort, rows, k, q);
    }
  }

  /** Labelling leaves the failures of a group as they were. */
  lemma LabelledFails(sort: Sorter, rows: seq<Row>, horizon: nat, osnr: real, ber: real, k: Key)
    requires Sorts(sort)
    requires horizon >= 1 && rows != []
    ensures FailsOf(Group(sort, AddHorizonLabels(sort, rows, horizon, osnr, ber), k), osnr, ber)
            == FailColumn(sort, rows, k, osnr, ber)
  {
    hide Future, IsHardFail, Order, Group, RowKey;
    LabelledFetched(sort, rows, horizon, osnr, ber, k);
  }

  lemma LabelledOrder(sort: Sorter, rows: seq<Row>, horizon: nat, osnr: real, ber: real, k: Key, p: nat)
    requires Sorts(sort)
    requires horizon >= 1 && rows != []
    requires p < |Group(sort, AddHorizonLabels(sort, rows, horizon, osnr, ber), k)|
    ensures var group := Group(sort, AddHorizonLabels(sort, rows, horizon, osnr, ber), k);
      && |group| == |FailColumn(sort, rows, k, osnr, ber)|
      && FailsOf(group, osnr, ber) == FailColumn(sort, rows, k, osnr, ber)
      && group[p].extras.hardFail == Some(IsHardFail(group[p].sample, osnr, ber))
      && group[p].extras.yHorizon == Some(Future(FailColumn(sort, rows, k, osnr, ber), horizon)[p])
  {
    hide Future, IsHardFail, Order, Group, FailColumn, FailsOf, RowKey, PositionOf;
    LabelledFetched(sort, rows, horizon, osnr, ber, k);
    LabelledFails(sort, rows, horizon, osnr, ber, k);
    var order := Order(sort, rows, k);
    OrderDistinct(sort, rows, k);
    PositionUnique(order, p);
  }

  /** Each batch window of a labelled table carries the label of its newest row. */
  lemma WindowLabel(sort: Sorter, rows: seq<Row>, horizon: nat, osnr: real, ber: real, k: Key, n: nat, stride: nat,
                    i: nat, at: nat)
    requires Sorts(sort)
    requires horizon >= 1 && n >= 1 && stride >= 1 && at == i * stride + n - 1
    requires i < |WindowsFor(BatchWindows(sort, AddHorizonLabels(sort, rows, horizon, osnr, ber), n, stride), k)|
    ensures var labelled := AddHorizonLabels(sort, rows, horizon, osnr, ber);
      var window := WindowsFor(BatchWindows(sort, labelled, n, stride), k)[i];
      LastMeta(window).extras.yHorizon
      == Some(if FailsWithin(FailsOf(Group(sort, labelled, k), osnr, ber), at, horizon) then 1 else 0)
  {
    hide Future, FailsWithin, FailsOf, AddHorizonLabels, Group, BatchWindows, WindowsFor;
    var labelled := AddHorizonLabels(sort, rows, horizon, osnr, ber);
    BatchWindowsOfKey(sort, labelled, k, n, stride);
    var group := Group(sort, labelled, k);
    GroupWindowLast(group, n, stride, i);
    LabelledGroup(sort, rows, horizon, osnr, ber, k, at);
  }
}
