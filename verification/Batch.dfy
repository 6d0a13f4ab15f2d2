/** The batch side: windows sliced out of a data frame, and their agreement with the stream. */
module Batch {
  import opened Basics
  import opened Telemetry
  import opened Ingest
  import opened Buckets
  import opened Tables

  /** The label columns; None is a column the table does not have. */
  datatype Extras = Extras(labelName: Option<string>, hardFail: Option<bool>, yHorizon: Option<int>)

  /** A table row with every default filled in; `convertible` says whether its optional cells convert to numbers. */
  datatype Row = Row(sample: Sample, convertible: bool, extras: Extras)

  datatype Meta = Meta(linkId: string, channelId: string, tsUnixMs: int, extras: Extras)

  /** A row as loaded: None and Absent are empty cells, or any cell of a column the table does not have. */
  datatype Cells = Cells(tsUnixMs: int, linkId: Option<string>, channelId: Option<string>, osnrDb: real, ber: real,
                         laserBiasMa: real, edfaPumpMa: GivenNumber, rxPowerDbm: GivenNumber, extras: Extras)

  predicate HasKey(c: Cells, hasChannel: bool) {
    c.linkId.Some? && (hasChannel ==> c.channelId.Some?)
  }

  /** What the conversion to an array makes of a cell, the default standing in for what it cannot convert. */
  function CellValue(g: GivenNumber, default: real): real {
    if Converted(g, default).Some? then Converted(g, default).value else default
  }

  function FillRow(c: Cells, hasChannel: bool): Row
    requires HasKey(c, hasChannel)
  {
    Row(Sample(c.tsUnixMs, c.linkId.value, if hasChannel then c.channelId.value else CHANNEL_DEFAULT,
               c.osnrDb, c.ber, c.laserBiasMa,
               CellValue(c.edfaPumpMa, EDFA_PUMP_DEFAULT), CellValue(c.rxPowerDbm, RX_POWER_DEFAULT)),
        Converted(c.edfaPumpMa, EDFA_PUMP_DEFAULT).Some? && Converted(c.rxPowerDbm, RX_POWER_DEFAULT).Some?,
        c.extras)
  }

  /** The rows that belong to a group, defaults filled in; grouping drops a row with an empty key cell. */
  function Prepared(cells: seq<Cells>, hasChannel: bool): (rows: seq<Row>)
    ensures |rows| <= |cells|
  {
    if cells == [] then []
    else
      var before, last := Prepared(cells[..|cells| - 1], hasChannel), cells[|cells| - 1];
      if HasKey(last, hasChannel) then before + [FillRow(last, hasChannel)] else before
  }

  predicate AllConvertible(rows: seq<Row>) {
    forall r :: r in rows ==> r.convertible
  }

  // ------------------------------------------------------------------ defaults on both sides

  /** A null prints as this, and leaves its cell empty. */
  const NULL_TEXT := "None"

  /** A sample as a data frame holds it. */
  function CellsOf(r: Raw): Cells {
    var channelId := match r.channelId
      case Missing => None
      case Text(value) => Some(value)
      case OtherText(printed) => if printed == NULL_TEXT then None else Some(printed);
    Cells(r.tsUnixMs, Some(r.linkId), channelId, r.osnrDb, r.ber, r.laserBiasMa, r.edfaPumpMa, r.rxPowerDbm,
          Extras(None, None, None))
  }

  /** The table has a channel column if any of its samples names a channel. */
  predicate HasChannel(raws: seq<Raw>) {
    exists r :: r in raws && !r.channelId.Missing?
  }

  /** The table made of the samples is read as the samples are: same values, nothing dropped, no error. */
  predicate ReadAlike(raws: seq<Raw>, hasChannel: bool) {
    var rows := Prepared(Map(raws, CellsOf), hasChannel);
    Samples(rows) == Map(raws, Fill) && AllConvertible(rows)
  }

  predicate RowAlike(r: Raw, hasChannel: bool) {
    && (hasChannel ==> !r.channelId.Missing? && SameText(r.channelId))
    && SameNumber(r.edfaPumpMa, EDFA_PUMP_DEFAULT) && SameNumber(r.rxPowerDbm, RX_POWER_DEFAULT)
  }

  lemma RowReadAlike(r: Raw, hasChannel: bool)
    requires !hasChannel ==> r.channelId.Missing?
    ensures HasKey(CellsOf(r), hasChannel) && FillRow(CellsOf(r), hasChannel).sample == Fill(r)
            && FillRow(CellsOf(r), hasChannel).convertible
            <==> RowAlike(r, hasChannel)
  {
    assert NULL_TEXT != CHANNEL_DEFAULT by {
      assert |NULL_TEXT| != |CHANNEL_DEFAULT|;
    }
  }

  lemma {:induction false} ReadAlikeRows(raws: seq<Raw>, hasChannel: bool)
    requires !hasChannel ==> forall i :: 0 <= i < |raws| ==> raws[i].channelId.Missing?
    ensures ReadAlike(raws, hasChannel) <==> forall i :: 0 <= i < |raws| ==> RowAlike(raws[i], hasChannel)
  {
    hide Fill, CellsOf, HasKey, FillRow, Prepared, RowAlike, Samples, AllConvertible;
    if raws == [] {
      NothingReadAlike(hasChannel);
    } else {
      var front, last := raws[..|raws| - 1], raws[|raws| - 1];
      assert raws == front + [last];
      ReadAlikeRows(front, hasChannel);
      RowReadAlike(last, hasChannel);
      MapSnoc(front, last, CellsOf);
      MapSnoc(front, last, Fill);
      PreparedSnoc(Map(front, CellsOf), CellsOf(last), hasChannel);
      var before := Prepared(Map(front, CellsOf), hasChannel);
      if HasKey(CellsOf(last), hasChannel) {
        OneMoreAlike(before, FillRow(CellsOf(last), hasChannel), Map(front, Fill), Fill(last));
      } else {
        SamplesLength(before);
      }
      assert (forall i :: 0 <= i < |raws| ==> RowAlike(raws[i], hasChannel))
        <==> (forall i :: 0 <= i < |front| ==> RowAlike(front[i], hasChannel)) && RowAlike(last, hasChannel);
    }
  }

  lemma SamplesLength(rows: seq<Row>)
    ensures |Samples(rows)| == |rows|
  {
  }

  lemma OneMoreAlike(rows: seq<Row>, r: Row, samples: seq<Sample>, s: Sample)
    ensures Samples(rows + [r]) == samples + [s] && AllConvertible(rows + [r])
            <==> Samples(rows) == samples && AllConvertible(rows) && r.sample == s && r.convertible
  {
    assert Samples(rows + [r]) == Samples(rows) + [r.sample];
    if Samples(rows) + [r.sample] == samples + [s] {
      assert |rows| == |samples|;
      assert (Samples(rows) + [r.sample])[..|rows|] == Samples(rows) && (samples + [s])[..|rows|] == samples;
      assert (Samples(rows) + [r.sample])[|rows|] == (samples + [s])[|rows|];
    }
    assert forall x :: x in rows + [r] <==> x in rows || x == r;
  }

  lemma NothingReadAlike(hasChannel: bool)
    ensures ReadAlike([], hasChannel)
  {
  }

  /**
   * The batch side reads a table of samples exactly as the ingest process reads the samples when
   * both read every optional number alike, and the channel ids are all missing, or all given and
   * read alike: given as text that is not empty.
   */
  lemma DefaultsAgreeIff(raws: seq<Raw>)
    ensures ReadAlike(raws, HasChannel(raws))
            <==> SameNumbers(raws)
                 && ((forall r :: r in raws ==> r.channelId.Missing?)
                     || (forall r :: r in raws ==> !r.channelId.Missing? && SameText(r.channelId)))
  {
    hide ReadAlike;
    ReadAlikeRows(raws, HasChannel(raws));
  }

  /** Text that converts is one number to the batch side and the default to the ingest process. */
  lemma NumberAsTextReadsApart(r: Raw, x: real)
    requires r.edfaPumpMa == OtherNumber(Some(x)) && x != EDFA_PUMP_DEFAULT && r.channelId == Text("C1")
    ensures Prepared([CellsOf(r)], true) != [] && Prepared([CellsOf(r)], true)[0].sample.edfaPumpMa == x
    ensures Fill(r).edfaPumpMa == EDFA_PUMP_DEFAULT
  {
    PreparedSnoc([], CellsOf(r), true);
    NothingPrepared(true);
    assert [] + [CellsOf(r)] == [CellsOf(r)];
  }

  lemma NothingPrepared(hasChannel: bool)
    ensures Prepared([], hasChannel) == []
  {
  }

  lemma PreparedSnoc(cells: seq<Cells>, c: Cells, hasChannel: bool)
    ensures Prepared(cells + [c], hasChannel)
            == if HasKey(c, hasChannel) then Prepared(cells, hasChannel) + [FillRow(c, hasChannel)]
               else Prepared(cells, hasChannel)
  {
    assert (cells + [c])[..|cells|] == cells;
  }

  function RowKey(r: Row): Key {
    Key(r.sample.linkId, r.sample.channelId)
  }

  function RowTime(r: Row): real {
    r.sample.tsUnixMs as real
  }

  function SampleTime(s: Sample): real {
    s.tsUnixMs as real
  }

  function MetaOf(r: Row): Meta {
    Meta(r.sample.linkId, r.sample.channelId, r.sample.tsUnixMs, r.extras)
  }

  function SampleOf(r: Row): Sample {
    r.sample
  }

  function Samples(rows: seq<Row>): (r: seq<Sample>)
    ensures |r| == |rows|
    ensures forall i :: 0 <= i < |rows| ==> r[i] == rows[i].sample
  {
    Map(rows, SampleOf)
  }

  /** The rows of one key, in table order. */
  function RowsOf(rows: seq<Row>, k: Key): seq<Row> {
    Filter(rows, (r: Row) => RowKey(r) == k)
  }

  /** One group, sorted by timestamp. */
  function Group(sort: Sorter, rows: seq<Row>, k: Key): seq<Row>
    requires Sorts(sort)
  {
    Arranged(RowsOf(rows, k), sort, RowTime)
  }

  /** The windows of one group: none if it is too short, otherwise every stride-th sliding window. */
  function GroupWindows(group: seq<Row>, n: nat, stride: nat): seq<seq<Row>>
    requires stride >= 1
  {
    if |group| < n then [] else Every(Sliding(group, n), stride)
  }

  function WindowsOver(sort: Sorter, rows: seq<Row>, keys: seq<Key>, n: nat, stride: nat): seq<seq<Row>>
    requires Sorts(sort)
    requires stride >= 1
  {
    if keys == [] then []
    else WindowsOver(sort, rows, keys[..|keys| - 1], n, stride)
         + GroupWindows(Group(sort, rows, keys[|keys| - 1]), n, stride)
  }

  function TableKeys(rows: seq<Row>): seq<Key> {
    GroupKeys(Map(rows, RowKey))
  }

  /** All windows of the table, group after group in key order. */
  function BatchWindows(sort: Sorter, rows: seq<Row>, n: nat, stride: nat): seq<seq<Row>>
    requires Sorts(sort)
    requires stride >= 1
  {
    WindowsOver(sort, rows, TableKeys(rows), n, stride)
  }

  lemma {:induction false} WindowLengths(sort: Sorter, rows: seq<Row>, keys: seq<Key>, n: nat, stride: nat, i: nat)
    requires Sorts(sort)
    requires stride >= 1 && i < |WindowsOver(sort, rows, keys, n, stride)|
    ensures |WindowsOver(sort, rows, keys, n, stride)[i]| == n
  {
    hide GroupWindows, Group;
    var front, group := keys[..|keys| - 1], Group(sort, rows, keys[|keys| - 1]);
    var before := WindowsOver(sort, rows, front, n, stride);
    if i < |before| {
      WindowLengths(sort, rows, front, n, stride, i);
    } else {
      GroupWindowLength(group, n, stride, i - |before|);
    }
  }

  lemma GroupWindowLength(group: seq<Row>, n: nat, stride: nat, i: nat)
    requires stride >= 1 && i < |GroupWindows(group, n, stride)|
    ensures |GroupWindows(group, n, stride)[i]| == n
  {
  }

  // ------------------------------------------------------------------ the slicing loop

  function Matrices(lib: Library, windows: seq<seq<Row>>): (r: seq<seq<seq<real>>>)
    ensures |r| == |windows|
    ensures forall i :: 0 <= i < |r| ==> r[i] == Matrix(lib, Samples(windows[i]))
  {
    Map(windows, (w: seq<Row>) => Matrix(lib, Samples(w)))
  }

  function LastMeta(w: seq<Row>): Meta {
    if w == [] then Meta("", "", 0, Extras(None, None, None)) else MetaOf(w[|w| - 1])
  }

  function Metas(windows: seq<seq<Row>>): (r: seq<Meta>)
    ensures |r| == |windows|
    ensures forall i :: 0 <= i < |r| ==> r[i] == LastMeta(windows[i])
  {
    Map(windows, LastMeta)
  }

  /** Views of n consecutive rows of the numeric table, transposed back to row-major windows. */
  lemma ViewsAreMatrices(lib: Library, group: seq<Row>, n: nat, stride: nat)
    requires stride >= 1 && n <= |group|
    ensures Every(Sliding(Matrix(lib, Samples(group)), n), stride) == Matrices(lib, GroupWindows(group, n, stride))
  {
    hide SampleRow;
    var m := Matrix(lib, Samples(group));
    var left, right := Every(Sliding(m, n), stride), Matrices(lib, GroupWindows(group, n, stride));
    forall i | 0 <= i < |left|
      ensures left[i] == right[i]
    {
      var k := i * stride;
      assert left[i] == m[k..k + n];
      assert right[i] == Matrix(lib, Samples(group[k..k + n]));
      assert m[k..k + n] == Matrix(lib, Samples(group[k..k + n]));
    }
  }

  /** The strided tail rows are the last rows of the strided windows. */
  lemma TailsAreLasts(group: seq<Row>, n: nat, stride: nat)
    requires stride >= 1 && 1 <= n <= |group|
    ensures Map(Every(group[n - 1..], stride), MetaOf) == Metas(GroupWindows(group, n, stride))
  {
    var windows := GroupWindows(group, n, stride);
    var tails := Every(group[n - 1..], stride);
    forall i | 0 <= i < |tails|
      ensures MetaOf(tails[i]) == Metas(windows)[i]
    {
      var k := i * stride;
      assert tails[i] == group[n - 1..][k];
      assert windows[i] == group[k..k + n];
    }
  }

  lemma MatricesConcat(lib: Library, a: seq<seq<Row>>, b: seq<seq<Row>>)
    ensures Matrices(lib, a + b) == Matrices(lib, a) + Matrices(lib, b)
    ensures Metas(a + b) == Metas(a) + Metas(b)
  {
    hide Matrix;
  }

  /** A group long enough for a window is converted to an array, which fails on a cell that is no number. */
  predicate GroupLoads(rows: seq<Row>, k: Key, n: nat) {
    |RowsOf(rows, k)| < n || AllConvertible(RowsOf(rows, k))
  }

  predicate Loads(rows: seq<Row>, n: nat) {
    forall k :: k in TableKeys(rows) ==> GroupLoads(rows, k, n)
  }

  lemma GroupConverts(sort: Sorter, rows: seq<Row>, k: Key)
    requires Sorts(sort)
    ensures AllConvertible(Group(sort, rows, k)) <==> AllConvertible(RowsOf(rows, k))
  {
    forall r
      ensures r in Group(sort, rows, k) <==> r in RowsOf(rows, k)
    {
      ArrangedMembers(RowsOf(rows, k), sort, RowTime, r);
    }
  }

  /** `sort` is the data-frame library's sort, `cells` the table as loaded; `ok` is false if a conversion fails. */
  method WindowsFromDataframe(lib: Library, sort: Sorter, cells: seq<Cells>, hasChannel: bool,
                              windowN: nat, stride: nat)
    returns (ok: bool, xStats: seq<seq<Option<real>>>, xSeq: seq<seq<seq<real>>>, meta: seq<Meta>)
    requires Sorts(sort) && windowN >= 1 && stride >= 1
    ensures ok <==> Loads(Prepared(cells, hasChannel), windowN)
    ensures ok ==> xStats == StatsRows(lib, BatchWindows(sort, Prepared(cells, hasChannel), windowN, stride))
    ensures ok ==> xSeq == Matrices(lib, BatchWindows(sort, Prepared(cells, hasChannel), windowN, stride))
    ensures ok ==> meta == Metas(BatchWindows(sort, Prepared(cells, hasChannel), windowN, stride))
  {
    hide Sorts, AllConvertible, RowsOf, Prepared, Matrices, Metas, Matrix, Samples, GroupKeys, GroupWindows, Group;
    hide RowKey, Every, Sliding;
    var rows := Prepared(cells, hasChannel);
    var keys := TableKeys(rows);
    var seqBlocks: seq<seq<seq<real>>> := [];
    var metaRows: seq<Meta> := [];
    for i := 0 to |keys|
      invariant seqBlocks == Matrices(lib, WindowsOver(sort, rows, keys[..i], windowN, stride))
      invariant metaRows == Metas(WindowsOver(sort, rows, keys[..i], windowN, stride))
      invariant forall m :: 0 <= m < i ==> GroupLoads(rows, keys[m], windowN)
    {
      assert keys[..i + 1][..i] == keys[..i];
      var group := Group(sort, rows, keys[i]);
      GroupLength(sort, rows, keys[i]);
      GroupConverts(sort, rows, keys[i]);
      MatricesConcat(lib, WindowsOver(sort, rows, keys[..i], windowN, stride), GroupWindows(group, windowN, stride));
      if |group| < windowN {
        ShortGroup(lib, group, windowN, stride);
        continue;
      }
      if !AllConvertible(group) {
        assert keys[i] in TableKeys(rows) && !GroupLoads(rows, keys[i], windowN) && !Loads(rows, windowN);
        return false, [], [], [];
      }
      ViewsAreMatrices(lib, group, windowN, stride);
      TailsAreLasts(group, windowN, stride);
      var mat := Matrix(lib, Samples(group));
      var views := Every(Sliding(mat, windowN), stride);
      seqBlocks := seqBlocks + views;
      var tail := group[windowN - 1..];
      tail := Every(tail, stride);
      metaRows := metaRows + Map(tail, MetaOf);
    }
    assert keys[..|keys|] == keys;
    StatsOfMatrices(lib, sort, rows, keys, windowN, stride);
    return true, StatsFromSequences(lib, seqBlocks), seqBlocks, metaRows;
  }

  /** Statistics of every window of the numeric batch. */
  function StatsFromSequences(lib: Library, xSeq: seq<seq<seq<real>>>): (r: seq<seq<Option<real>>>)
    requires forall i :: 0 <= i < |xSeq| ==> xSeq[i] != [] && forall j :: 0 <= j < |xSeq[i]| ==> |xSeq[i][j]| == 5
    ensures |r| == |xSeq|
    ensures forall i :: 0 <= i < |r| ==> r[i] == StatsRow(lib, xSeq[i])
  {
    seq(|xSeq|, i requires 0 <= i < |xSeq| => StatsRow(lib, xSeq[i]))
  }

  function WindowStats(lib: Library, w: seq<Row>): seq<Option<real>> {
    if w == [] then [] else StatsRow(lib, Matrix(lib, Samples(w)))
  }

  /** Statistics of every window, window by window; an empty window has none. */
  function StatsRows(lib: Library, windows: seq<seq<Row>>): (r: seq<seq<Option<real>>>)
    ensures |r| == |windows|
  {
    Map(windows, (w: seq<Row>) => WindowStats(lib, w))
  }

  lemma StatsOfMatrices(lib: Library, sort: Sorter, rows: seq<Row>, keys: seq<Key>, n: nat, stride: nat)
    requires Sorts(sort)
    requires stride >= 1 && n >= 1
    ensures var xSeq := Matrices(lib, WindowsOver(sort, rows, keys, n, stride));
      && (forall i :: 0 <= i < |xSeq| ==> xSeq[i] != [] && forall j :: 0 <= j < |xSeq[i]| ==> |xSeq[i][j]| == 5)
      && StatsFromSequences(lib, xSeq) == StatsRows(lib, WindowsOver(sort, rows, keys, n, stride))
  {
    hide StatsRow, Matrix, WindowsOver, LogBer;
    var windows := WindowsOver(sort, rows, keys, n, stride);
    var xSeq := Matrices(lib, windows);
    forall i | 0 <= i < |xSeq|
      ensures xSeq[i] != [] && windows[i] != [] && forall j :: 0 <= j < |xSeq[i]| ==> |xSeq[i][j]| == 5
    {
      WindowLengths(sort, rows, keys, n, stride, i);
    }
  }

  lemma ShortGroup(lib: Library, group: seq<Row>, n: nat, stride: nat)
    requires stride >= 1 && |group| < n
    ensures Matrices(lib, GroupWindows(group, n, stride)) == []
    ensures Metas(GroupWindows(group, n, stride)) == []
  {
  }

  // ------------------------------------------------------------------ one key of the batch

  predicate Keyed(w: seq<Row>, k: Key) {
    w != [] && RowKey(w[|w| - 1]) == k
  }

  /** The batch windows whose last row has the given key. */
  function WindowsFor(windows: seq<seq<Row>>, k: Key): seq<seq<Row>> {
    Filter(windows, (w: seq<Row>) => Keyed(w, k))
  }

  lemma WindowsForNone(k: Key)
    ensures WindowsFor([], k) == []
  {
  }

  lemma WindowsForSnoc(windows: seq<seq<Row>>, w: seq<Row>, k: Key)
    ensures WindowsFor(windows + [w], k)
            == if Keyed(w, k) then WindowsFor(windows, k) + [w] else WindowsFor(windows, k)
  {
    FilterSnoc(windows, w, (v: seq<Row>) => Keyed(v, k));
  }

  lemma {:induction false} WindowsForConcat(a: seq<seq<Row>>, b: seq<seq<Row>>, k: Key)
    ensures WindowsFor(a + b, k) == WindowsFor(a, k) + WindowsFor(b, k)
  {
    hide WindowsFor, Keyed;
    if b == [] {
      assert a + b == a;
      WindowsForNone(k);
    } else {
      var front, w := b[..|b| - 1], b[|b| - 1];
      WindowsForConcat(a, front, k);
      assert a + b == (a + front) + [w];
      assert b == front + [w];
      WindowsForSnoc(a + front, w, k);
      WindowsForSnoc(front, w, k);
    }
  }

  lemma {:induction false} AllOrNone(windows: seq<seq<Row>>, k: Key, all: bool)
    requires forall i :: 0 <= i < |windows| ==> Keyed(windows[i], k) == all
    ensures WindowsFor(windows, k) == if all then windows else []
  {
    hide WindowsFor, Keyed;
    if windows == [] {
      WindowsForNone(k);
    } else {
      var front, w := windows[..|windows| - 1], windows[|windows| - 1];
      AllOrNone(front, k, all);
      WindowsForSnoc(front, w, k);
      assert front + [w] == windows;
    }
  }

  lemma GroupRows(sort: Sorter, rows: seq<Row>, k: Key, r: Row)
    requires Sorts(sort)
    requires r in Group(sort, rows, k)
    ensures RowKey(r) == k && r in rows
  {
    ArrangedMembers(RowsOf(rows, k), sort, RowTime, r);
    FilterMember(rows, (x: Row) => RowKey(x) == k, r);
  }

  lemma GroupWindowsKeyed(sort: Sorter, rows: seq<Row>, own: Key, k: Key, n: nat, stride: nat)
    requires Sorts(sort)
    requires stride >= 1 && n >= 1
    ensures WindowsFor(GroupWindows(Group(sort, rows, own), n, stride), k)
            == if own == k then GroupWindows(Group(sort, rows, k), n, stride) else []
  {
    var group := Group(sort, rows, own);
    var windows := GroupWindows(group, n, stride);
    forall i | 0 <= i < |windows|
      ensures Keyed(windows[i], k) == (own == k)
    {
      var j := i * stride;
      assert windows[i] == group[j..j + n];
      GroupRows(sort, rows, own, group[j + n - 1]);
    }
    AllOrNone(windows, k, own == k);
  }

  lemma {:induction false} WindowsForKeys(sort: Sorter, rows: seq<Row>, keys: seq<Key>, k: Key, n: nat, stride: nat)
    requires Sorts(sort)
    requires stride >= 1 && n >= 1 && KeysAscend(keys)
    ensures WindowsFor(WindowsOver(sort, rows, keys, n, stride), k)
            == if k in keys then GroupWindows(Group(sort, rows, k), n, stride) else []
  {
    hide GroupWindows, Group, KeyLess, RowKey, Sorts, WindowsFor;
    if keys == [] {
      WindowsForNone(k);
    } else {
      var front, last := keys[..|keys| - 1], keys[|keys| - 1];
      WindowsForKeys(sort, rows, front, k, n, stride);
      GroupWindowsKeyed(sort, rows, last, k, n, stride);
      WindowsForConcat(WindowsOver(sort, rows, front, n, stride), GroupWindows(Group(sort, rows, last), n, stride), k);
      LastIsNew(keys);
      assert keys == front + [last];
    }
  }

  lemma KeyPresent(rows: seq<Row>, k: Key)
    requires RowsOf(rows, k) != []
    ensures k in TableKeys(rows)
  {
    GroupKeysSorted(Map(rows, RowKey));
    var r := RowsOf(rows, k)[0];
    FilterMember(rows, (x: Row) => RowKey(x) == k, r);
    var i :| 0 <= i < |rows| && rows[i] == r;
    assert Map(rows, RowKey)[i] == k;
  }

  lemma AbsentGroup(sort: Sorter, rows: seq<Row>, k: Key)
    requires Sorts(sort)
    requires k !in TableKeys(rows)
    ensures Group(sort, rows, k) == []
  {
    if RowsOf(rows, k) != [] {
      KeyPresent(rows, k);
    }
  }

  /** Whatever other groups the table holds, a key's batch windows are its own group's. */
  lemma BatchWindowsOfKey(sort: Sorter, rows: seq<Row>, k: Key, n: nat, stride: nat)
    requires Sorts(sort)
    requires stride >= 1 && n >= 1
    ensures WindowsFor(BatchWindows(sort, rows, n, stride), k) == GroupWindows(Group(sort, rows, k), n, stride)
  {
    GroupKeysSorted(Map(rows, RowKey));
    WindowsForKeys(sort, rows, TableKeys(rows), k, n, stride);
    if k !in TableKeys(rows) {
      AbsentGroup(sort, rows, k);
    }
  }

  lemma GroupWindowLast(group: seq<Row>, n: nat, stride: nat, i: nat)
    requires stride >= 1 && n >= 1 && i < |GroupWindows(group, n, stride)|
    ensures 0 <= i * stride + n - 1 < |group|
    ensures LastMeta(GroupWindows(group, n, stride)[i]) == MetaOf(group[i * stride + n - 1])
  {
    var at := i * stride;
    assert GroupWindows(group, n, stride)[i] == group[at..at + n];
  }

  // ------------------------------------------------------------------ stream and batch

  lemma {:induction false} SamplesOfKey(rows: seq<Row>, k: Key)
    ensures Samples(RowsOf(rows, k)) == Only(Samples(rows), k.linkId, k.channelId)
  {
    if rows != [] {
      var front, r := rows[..|rows| - 1], rows[|rows| - 1];
      SamplesOfKey(front, k);
      assert Samples(rows) == Samples(front) + [r.sample];
      OneMoreSample(Samples(front), r.sample, k.linkId, k.channelId);
      assert RowKey(r) == k <==> SameSource(r.sample, k.linkId, k.channelId);
    } else {
      assert Samples(rows) == [];
    }
  }

  lemma SlidingSamples(rows: seq<Row>, n: nat)
    ensures Sliding(Samples(rows), n) == Map(Sliding(rows, n), Samples)
  {
    forall i | 0 <= i < |Sliding(rows, n)|
      ensures Sliding(Samples(rows), n)[i] == Samples(Sliding(rows, n)[i])
    {
      assert Samples(rows)[i..i + n] == Samples(rows[i..i + n]);
    }
  }

  lemma SameRowsOfKey(a: seq<Row>, b: seq<Row>, k: Key)
    requires multiset(a) == multiset(b)
    ensures multiset(RowsOf(a, k)) == multiset(RowsOf(b, k))
  {
    forall r: Row
      ensures multiset(RowsOf(a, k))[r] == multiset(RowsOf(b, k))[r]
    {
      FilterMultiset(a, (x: Row) => RowKey(x) == k, r);
      FilterMultiset(b, (x: Row) => RowKey(x) == k, r);
    }
  }

  /** The samples of a source come in time order, and samples with equal timestamps are equal. */
  ghost predicate InTimeOrder(own: seq<Row>) {
    Ordered(own, RowTime) && TiesAlike(own, RowTime, SampleOf)
  }

  /** A source in time order is recovered by any sort, however the table is shuffled. */
  lemma GroupIsStreamOrder(sort: Sorter, table: seq<Row>, stream: seq<Row>, k: Key)
    requires Sorts(sort)
    requires multiset(table) == multiset(stream) && InTimeOrder(RowsOf(stream, k))
    ensures Samples(Group(sort, table, k)) == Samples(RowsOf(stream, k))
  {
    hide Sorts, Ordered, TiesAlike;
    SameRowsOfKey(table, stream, k);
    ArrangedSorts(RowsOf(table, k), sort, RowTime);
    SortIsUnique(RowsOf(stream, k), Group(sort, table, k), RowTime, SampleOf);
  }

  lemma GroupWindowsAreStrided(group: seq<Row>, n: nat, stride: nat)
    requires stride >= 1 && n >= 1
    ensures GroupWindows(group, n, stride) == Every(Sliding(group, n), stride)
  {
  }

  /** The source gets its own windows from the stream, its bucket shared or not. */
  ghost predicate Alone(stream: seq<Row>, k: Key, n: nat) {
    Undisturbed(Bucket(Samples(stream), WindowKey(k.linkId, k.channelId)), n, k.linkId, k.channelId)
  }

  /** The batch windows of a source are the strided sliding windows over the samples of its group. */
  lemma BatchSlidesGroup(sort: Sorter, table: seq<Row>, k: Key, n: nat, stride: nat)
    requires Sorts(sort)
    requires n >= 1 && stride >= 1
    ensures Map(WindowsFor(BatchWindows(sort, table, n, stride), k), Samples)
            == Every(Sliding(Samples(Group(sort, table, k)), n), stride)
  {
    hide Sorts, Group, Sliding, Every, BatchWindows, WindowsFor, GroupWindows;
    var group := Group(sort, table, k);
    BatchWindowsOfKey(sort, table, k, n, stride);
    GroupWindowsAreStrided(group, n, stride);
    EveryMapped(Sliding(group, n), Samples, stride);
    SlidingSamples(group, n);
  }

  /**
   * Stream and batch agree: for any interleaved stream and any shuffling of it into a table, the
   * batch windows of a source are every stride-th window the stream emitted for that source.
   */
  lemma BatchIsStridedStream(sort: Sorter, table: seq<Row>, stream: seq<Row>, k: Key, n: nat, stride: nat)
    requires Sorts(sort)
    requires n >= 1 && stride >= 1
    requires multiset(table) == multiset(stream)
    requires InTimeOrder(RowsOf(stream, k))
    requires Alone(stream, k, n)
    ensures Map(WindowsFor(BatchWindows(sort, table, n, stride), k), Samples)
            == Every(EmittedFor(Emitted(Samples(stream), n), k.linkId, k.channelId), stride)
  {
    hide Sorts, Group, Sliding, Every, BatchWindows, WindowsFor, InTimeOrder, Emitted, EmittedFor, Only;
    hide Undisturbed, Bucket, WindowKey;
    BatchSlidesGroup(sort, table, k, n, stride);
    GroupIsStreamOrder(sort, table, stream, k);
    SamplesOfKey(stream, k);
    StreamSlidesIff(Samples(stream), n, k.linkId, k.channelId);
  }

  /** What the two sides hand to the models for one window: numbers, statistics and labels' position. */
  lemma WindowContentsAgree(lib: Library, w: seq<Row>)
    requires |w| >= 2
    ensures var frame := FrameOf(lib, Samples(w));
      && LastMeta(w).tsUnixMs == frame.tsUnixMs
      && LastMeta(w).linkId == frame.linkId
      && LastMeta(w).channelId == frame.channelId
      && HasFeatures(frame.stats)
      && StatsRow(lib, Matrix(lib, Samples(w))) == Map(StatsVector(frame.stats), (x: real) => Some(x))
  {
    hide StatsRow, StatsVector, Matrix, StatsOf, HasFeatures;
    VectorisedAgreesIff(lib, Samples(w));
  }

  function MetaKey(m: Meta): Key {
    Key(m.linkId, m.channelId)
  }

  /** The output rows whose metadata names the key. */
  function PickFor<T>(rows: seq<T>, meta: seq<Meta>, k: Key): seq<T>
    requires |rows| == |meta|
  {
    if rows == [] then []
    else
      var before, last := PickFor(rows[..|rows| - 1], meta[..|meta| - 1], k), rows[|rows| - 1];
      if MetaKey(meta[|meta| - 1]) == k then before + [last] else before
  }

  /** Selecting rows by their metadata is selecting windows by their last row. */
  lemma {:induction false} PickIsFilter<T>(windows: seq<seq<Row>>, f: seq<Row> -> T, k: Key)
    requires forall i :: 0 <= i < |windows| ==> windows[i] != []
    ensures PickFor(Map(windows, f), Metas(windows), k) == Map(WindowsFor(windows, k), f)
  {
    hide WindowsFor;
    if windows == [] {
      WindowsForNone(k);
    } else {
      var front, w := windows[..|windows| - 1], windows[|windows| - 1];
      PickIsFilter(front, f, k);
      WindowsForSnoc(front, w, k);
      assert windows == front + [w];
      MapSnoc(WindowsFor(front, k), w, f);
      assert Map(windows, f)[..|front|] == Map(front, f) && Metas(windows)[..|front|] == Metas(front);
    }
  }

  /** The eight features of a frame in contract order, as the batch writes them. */
  function FeatureRow(f: Frame): seq<Option<real>> {
    if HasFeatures(f.stats) then Map(StatsVector(f.stats), (x: real) => Some(x)) else []
  }

  predicate SameIdentity(m: Meta, f: Frame) {
    m.linkId == f.linkId && m.channelId == f.channelId && m.tsUnixMs == f.tsUnixMs
  }

  /** The frames the ingest process offers for one source. */
  function FramesOfSource(lib: Library, stream: seq<Sample>, k: Key, n: nat): seq<Frame> {
    FramesFrom(lib, EmittedFor(Emitted(stream, n), k.linkId, k.channelId))
  }

  /** Every window the stream emits for a source holds n samples. */
  lemma EmittedForSlides(stream: seq<Row>, k: Key, n: nat)
    requires n >= 1 && Alone(stream, k, n)
    ensures forall w :: w in EmittedFor(Emitted(Samples(stream), n), k.linkId, k.channelId) ==> |w| == n
  {
    hide EmittedFor, Emitted, Only, Undisturbed, Bucket;
    StreamSlidesIff(Samples(stream), n, k.linkId, k.channelId);
  }

  function MatrixOf(f: Frame): seq<seq<real>> {
    if HasSequences(f) then FrameMatrix(f) else []
  }

  /**
   * What the method returns for one key: its statistics, matrices and metadata rows are the features,
   * the autoencoder input and the identity of every stride-th frame the ingest process offered for
   * that source.
   */
  lemma OutputsAreFrames(lib: Library, sort: Sorter, table: seq<Row>, stream: seq<Row>, k: Key, n: nat, stride: nat)
    requires Sorts(sort) && n >= 2 && stride >= 1
    requires multiset(table) == multiset(stream)
    requires InTimeOrder(RowsOf(stream, k)) && Alone(stream, k, n)
    ensures var windows := BatchWindows(sort, table, n, stride);
      var frames := Every(FramesOfSource(lib, Samples(stream), k, n), stride);
      var meta := PickFor(Metas(windows), Metas(windows), k);
      && PickFor(StatsRows(lib, windows), Metas(windows), k) == Map(frames, FeatureRow)
      && PickFor(Matrices(lib, windows), Metas(windows), k) == Map(frames, MatrixOf)
      && |meta| == |frames| && forall i :: 0 <= i < |frames| ==> SameIdentity(meta[i], frames[i])
  {
    hide Sorts, InTimeOrder, Alone, Emitted, EmittedFor, BatchWindows, WindowsFor, PickFor, FramesFrom, Matrix;
    hide StatsRow, StatsVector, HasFeatures, FrameOf, Samples, Every, LastMeta, HasSequences, FrameMatrix;
    var windows := BatchWindows(sort, table, n, stride);
    var emitted := EmittedFor(Emitted(Samples(stream), n), k.linkId, k.channelId);
    var own := WindowsFor(windows, k);
    forall i | 0 <= i < |windows|
      ensures windows[i] != []
    {
      BatchWindowLength(sort, table, n, stride, i);
    }
    PickIsFilter(windows, LastMeta, k);
    PickIsFilter(windows, (w: seq<Row>) => WindowStats(lib, w), k);
    PickIsFilter(windows, (w: seq<Row>) => Matrix(lib, Samples(w)), k);
    assert StatsRows(lib, windows) == Map(windows, (w: seq<Row>) => WindowStats(lib, w));
    assert Matrices(lib, windows) == Map(windows, (w: seq<Row>) => Matrix(lib, Samples(w)));
    BatchIsStridedStream(sort, table, stream, k, n, stride);
    EmittedForSlides(stream, k, n);
    FramesFromEach(lib, emitted);
    var frames := Every(FramesFrom(lib, emitted), stride);
    EveryFrame(lib, emitted, stride);
    forall i | 0 <= i < |own|
      ensures WindowStats(lib, own[i]) == FeatureRow(frames[i]) && SameIdentity(LastMeta(own[i]), frames[i])
      ensures Matrix(lib, Samples(own[i])) == MatrixOf(frames[i])
    {
      assert Map(own, Samples)[i] == Every(emitted, stride)[i];
      EveryMember(emitted, stride, i);
      WindowContentsAgree(lib, own[i]);
      FrameMatrixIsMatrix(lib, Samples(own[i]));
    }
  }

  lemma BatchWindowLength(sort: Sorter, rows: seq<Row>, n: nat, stride: nat, i: nat)
    requires Sorts(sort) && stride >= 1 && i < |BatchWindows(sort, rows, n, stride)|
    ensures |BatchWindows(sort, rows, n, stride)[i]| == n
  {
    hide WindowsOver;
    WindowLengths(sort, rows, TableKeys(rows), n, stride, i);
  }

  lemma EveryMember<T>(s: seq<T>, stride: nat, i: nat)
    requires stride >= 1 && i < |Every(s, stride)|
    ensures Every(s, stride)[i] in s
  {
  }

  lemma EveryFrame(lib: Library, windows: seq<seq<Sample>>, stride: nat)
    requires stride >= 1 && forall i :: 0 <= i < |windows| ==> windows[i] != []
    ensures |Every(FramesFrom(lib, windows), stride)| == |Every(windows, stride)|
    ensures forall i :: 0 <= i < |Every(windows, stride)| ==>
      && Every(windows, stride)[i] != []
      && Every(FramesFrom(lib, windows), stride)[i] == FrameOf(lib, Every(windows, stride)[i])
  {
    hide FrameOf, FramesFrom;
    FramesFromEach(lib, windows);
  }

  lemma SlidingDetermines<T>(a: seq<T>, b: seq<T>, n: nat)
    requires |a| == |b| && 1 <= n <= |a| && Sliding(a, n) == Sliding(b, n)
    ensures a == b
  {
    forall i | 0 <= i < |a|
      ensures a[i] == b[i]
    {
      var j := Min(i, |a| - n);
      assert Sliding(a, n)[j] == a[j..j + n] && Sliding(b, n)[j] == b[j..j + n];
      assert a[j..j + n][i - j] == b[j..j + n][i - j];
    }
  }

  /** Stride one, rows in stream order: the batch gives a source exactly the windows the stream emits for it. */
  ghost predicate Agree(sort: Sorter, stream: seq<Row>, k: Key, n: nat)
    requires Sorts(sort) && n >= 1
  {
    Map(WindowsFor(BatchWindows(sort, stream, n, 1), k), Samples)
    == EmittedFor(Emitted(Samples(stream), n), k.linkId, k.channelId)
  }

  lemma EveryOne<T>(s: seq<T>)
    ensures Every(s, 1) == s
  {
  }

  /** The samples of a group are its source's own. */
  lemma GroupIsPure(sort: Sorter, rows: seq<Row>, k: Key)
    requires Sorts(sort)
    ensures Pure(Samples(Group(sort, rows, k)), k.linkId, k.channelId)
  {
    hide Sorts, Group, SameSource;
    var group := Group(sort, rows, k);
    forall i | 0 <= i < |group|
      ensures SameSource(Samples(group)[i], k.linkId, k.channelId)
    {
      GroupRows(sort, rows, k, group[i]);
      RowSource(group[i]);
    }
  }

  lemma RowSource(r: Row)
    ensures SameSource(r.sample, RowKey(r).linkId, RowKey(r).channelId)
  {
  }

  /** For one sort, the two sides agree exactly when the source is alone and the sort leaves its samples in order. */
  lemma AgreeIffUnmoved(sort: Sorter, stream: seq<Row>, k: Key, n: nat)
    requires Sorts(sort) && n >= 1
    ensures Agree(sort, stream, k, n)
            <==> && Alone(stream, k, n)
                 && (|RowsOf(stream, k)| < n || Samples(Group(sort, stream, k)) == Samples(RowsOf(stream, k)))
  {
    hide Sorts, Group, BatchWindows, WindowsFor, Emitted, EmittedFor, Only, Every, Undisturbed, Bucket, WindowKey, Pure;
    var own, group := Samples(RowsOf(stream, k)), Samples(Group(sort, stream, k));
    BatchSlidesGroup(sort, stream, k, n, 1);
    EveryOne(Sliding(group, n));
    SamplesOfKey(stream, k);
    StreamSlidesIff(Samples(stream), n, k.linkId, k.channelId);
    GroupLength(sort, stream, k);
    GroupIsPure(sort, stream, k);
    SlidingPure(group, n, k.linkId, k.channelId);
    if |own| >= n && Sliding(group, n) == Sliding(own, n) {
      SlidingDetermines(group, own, n);
    }
  }

  lemma GroupLength(sort: Sorter, rows: seq<Row>, k: Key)
    requires Sorts(sort)
    ensures |Group(sort, rows, k)| == |RowsOf(rows, k)|
  {
  }

  /**
   * The batch groups by the pair of ids and sorts, with a sort free to arrange equal timestamps as it
   * likes; the stream joins the ids and does not sort. With rows in stream order and stride one, they
   * agree on a source under every sort exactly when the source gets its own windows from its bucket,
   * and it is too short for a window, or its timestamps never step back and equal timestamps come with
   * equal samples.
   */
  lemma AgreeIffInOrder(stream: seq<Row>, k: Key, n: nat)
    requires n >= 1
    ensures (forall sort :: Sorts(sort) ==> Agree(sort, stream, k, n))
            <==> Alone(stream, k, n) && (|RowsOf(stream, k)| < n || InTimeOrder(RowsOf(stream, k)))
  {
    hide Sorts, Agree, RowsOf, Alone, Ordered, TiesAlike;
    var own := RowsOf(stream, k);
    forall sort | Sorts(sort)
      ensures Agree(sort, stream, k, n)
              <==> && Alone(stream, k, n)
                   && (|own| < n || Map(Arranged(own, sort, RowTime), SampleOf) == Map(own, SampleOf))
    {
      AgreeIffUnmoved(sort, stream, k, n);
    }
    EverySortFixesIff(own, RowTime, SampleOf, SampleTime);
    StableSortSorts();
  }
}
