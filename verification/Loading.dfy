/** From the loaded table to the metadata handed to the trainer: labels carried, labels added, order of the output. */
module Loading {
  import opened Basics
  import opened Telemetry
  import opened Ingest
  import opened Tables
  import opened Batch
  import opened Labels

  // ------------------------------------------------------------------ rows of the table

  /** No link id is empty, and if there is a channel column no channel id is. */
  ghost predicate AllHaveKeys(cells: seq<Cells>, hasChannel: bool) {
    forall i :: 0 <= i < |cells| ==> HasKey(cells[i], hasChannel)
  }

  /** The rows with an empty key cell play no part. */
  lemma {:induction false} IncompleteRowsDrop(cells: seq<Cells>, hasChannel: bool)
    ensures Prepared(cells, hasChannel) == Prepared(Filter(cells, (c: Cells) => HasKey(c, hasChannel)), hasChannel)
  {
    hide HasKey, FillRow;
    if cells != [] {
      var front, last := cells[..|cells| - 1], cells[|cells| - 1];
      IncompleteRowsDrop(front, hasChannel);
      PreparedSnoc(Filter(front, (c: Cells) => HasKey(c, hasChannel)), last, hasChannel);
    }
  }

  lemma {:induction false} PreparedEach(cells: seq<Cells>, hasChannel: bool)
    requires AllHaveKeys(cells, hasChannel)
    ensures |Prepared(cells, hasChannel)| == |cells|
    ensures forall i :: 0 <= i < |cells| ==> Prepared(cells, hasChannel)[i] == FillRow(cells[i], hasChannel)
  {
    hide HasKey, FillRow;
    if cells != [] {
      var front := cells[..|cells| - 1];
      assert forall i :: 0 <= i < |front| ==> front[i] == cells[i];
      PreparedEach(front, hasChannel);
    }
  }

  /** The cell belongs to the key: its own ids, or C1 where the table has no channel column. */
  predicate OfKey(c: Cells, hasChannel: bool, k: Key) {
    c.linkId == Some(k.linkId) && if hasChannel then c.channelId == Some(k.channelId) else k.channelId == "C1"
  }

  /** The rows of the key, each once, in an order of time. */
  ghost predicate TimeOrder(cells: seq<Cells>, hasChannel: bool, k: Key, order: seq<int>) {
    && (forall r :: r in order <==> 0 <= r < |cells| && OfKey(cells[r], hasChannel, k))
    && Distinct(order) && (forall p :: 0 <= p < |order| ==> 0 <= order[p] < |cells|)
    && (forall p, q :: 0 <= p < q < |order| ==> cells[order[p]].tsUnixMs <= cells[order[q]].tsUnixMs)
  }

  lemma OrderMembers(sort: Sorter, rows: seq<Row>, k: Key, r: int)
    requires Sorts(sort)
    ensures r in Order(sort, rows, k) <==> 0 <= r < |rows| && RowKey(rows[r]) == k
  {
    hide Sorts;
    ArrangedMembers(IndicesBelow(rows, k, |rows|), sort, TimeColumn(rows), r);
    if 0 <= r < |rows| && RowKey(rows[r]) == k {
      IndexPresent(rows, k, |rows|, r);
    }
  }

  lemma OrderInTime(sort: Sorter, rows: seq<Row>, k: Key)
    requires Sorts(sort)
    ensures forall p, q :: 0 <= p < q < |Order(sort, rows, k)| ==>
      && 0 <= Order(sort, rows, k)[p] < |rows| && 0 <= Order(sort, rows, k)[q] < |rows|
      && rows[Order(sort, rows, k)[p]].sample.tsUnixMs <= rows[Order(sort, rows, k)[q]].sample.tsUnixMs
  {
    hide Sorts;
    var order := Order(sort, rows, k);
    ArrangedSorts(IndicesBelow(rows, k, |rows|), sort, TimeColumn(rows));
    forall p | 0 <= p < |order|
      ensures 0 <= order[p] < |rows|
    {
      OrderRows(sort, rows, k, p);
    }
    assert forall p, q :: 0 <= p < q < |order| ==> TimeColumn(rows)(order[p]) <= TimeColumn(rows)(order[q]);
  }

  lemma FilledKey(c: Cells, hasChannel: bool, k: Key)
    requires HasKey(c, hasChannel)
    ensures RowKey(FillRow(c, hasChannel)) == k <==> OfKey(c, hasChannel, k)
    ensures FillRow(c, hasChannel).sample.tsUnixMs == c.tsUnixMs
    ensures FillRow(c, hasChannel).sample.osnrDb == c.osnrDb && FillRow(c, hasChannel).sample.ber == c.ber
    ensures FillRow(c, hasChannel).extras.labelName == c.extras.labelName
    ensures FillRow(c, hasChannel).extras.hardFail == c.extras.hardFail
    ensures FillRow(c, hasChannel).extras.yHorizon == c.extras.yHorizon
  {
  }

  lemma OrderIsTimeOrder(sort: Sorter, cells: seq<Cells>, hasChannel: bool, k: Key)
    requires Sorts(sort) && AllHaveKeys(cells, hasChannel)
    ensures TimeOrder(cells, hasChannel, k, Order(sort, Prepared(cells, hasChannel), k))
  {
    hide Sorts, HasKey, FillRow, OfKey, Order, Prepared, RowKey;
    var rows := Prepared(cells, hasChannel);
    var order := Order(sort, rows, k);
    PreparedEach(cells, hasChannel);
    forall r: int
      ensures r in order <==> 0 <= r < |cells| && OfKey(cells[r], hasChannel, k)
    {
      OrderMembers(sort, rows, k, r);
      if 0 <= r < |cells| {
        FilledKey(cells[r], hasChannel, k);
      }
    }
    OrderDistinct(sort, rows, k);
    OrderInTime(sort, rows, k);
    forall p | 0 <= p < |order|
      ensures 0 <= order[p] < |cells|
    {
      assert order[p] in order;
    }
    forall p, q | 0 <= p < q < |order|
      ensures cells[order[p]].tsUnixMs <= cells[order[q]].tsUnixMs
    {
      FilledKey(cells[order[p]], hasChannel, k);
      FilledKey(cells[order[q]], hasChannel, k);
    }
  }

  // ------------------------------------------------------------------ labels carried to the metadata

  /** The metadata rows the method returns for one key. */
  function MetaFor(sort: Sorter, cells: seq<Cells>, hasChannel: bool, k: Key, n: nat, stride: nat): seq<Meta>
    requires Sorts(sort) && stride >= 1
  {
    var meta := Metas(BatchWindows(sort, Prepared(cells, hasChannel), n, stride));
    PickFor(meta, meta, k)
  }

  /** Metadata row i of a key is made of the row at position i * stride + n - 1 of its group. */
  lemma MetaIsGroupRow(sort: Sorter, cells: seq<Cells>, hasChannel: bool, k: Key, n: nat, stride: nat, i: nat)
    requires Sorts(sort) && n >= 1 && stride >= 1 && i < |MetaFor(sort, cells, hasChannel, k, n, stride)|
    ensures var rows := Prepared(cells, hasChannel);
      var at := i * stride + n - 1;
      && 0 <= at < |Group(sort, rows, k)|
      && MetaFor(sort, cells, hasChannel, k, n, stride)[i] == MetaOf(Group(sort, rows, k)[at])
  {
    hide Sorts, Prepared, BatchWindows, WindowsFor, PickFor, Group, GroupWindows, LastMeta, MetaOf;
    var rows := Prepared(cells, hasChannel);
    var windows := BatchWindows(sort, rows, n, stride);
    forall j | 0 <= j < |windows|
      ensures windows[j] != []
    {
      BatchWindowLength(sort, rows, n, stride, j);
    }
    PickIsFilter(windows, LastMeta, k);
    assert Metas(windows) == Map(windows, LastMeta);
    BatchWindowsOfKey(sort, rows, k, n, stride);
    GroupWindowLast(Group(sort, rows, k), n, stride, i);
  }

  lemma GroupRowAt(sort: Sorter, rows: seq<Row>, k: Key, at: nat)
    requires Sorts(sort) && at < |Group(sort, rows, k)|
    ensures at < |Order(sort, rows, k)| && 0 <= Order(sort, rows, k)[at] < |rows|
    ensures Group(sort, rows, k)[at] == rows[Order(sort, rows, k)[at]]
  {
    hide Sorts;
    if rows == [] {
      EmptyGroup(sort, rows, k);
    } else {
      GroupIsOrder(sort, rows, k);
      OrderRows(sort, rows, k, at);
    }
  }

  /** The metadata row is the loaded row: ids, time and each label column, present or not. */
  ghost predicate CarriesRow(m: Meta, c: Cells, k: Key) {
    && m.linkId == k.linkId && m.channelId == k.channelId && m.tsUnixMs == c.tsUnixMs
    && m.extras.labelName == c.extras.labelName
    && m.extras.hardFail == c.extras.hardFail
    && m.extras.yHorizon == c.extras.yHorizon
  }

  lemma MetaOfFilled(c: Cells, hasChannel: bool, k: Key)
    requires HasKey(c, hasChannel) && OfKey(c, hasChannel, k)
    ensures CarriesRow(MetaOf(FillRow(c, hasChannel)), c, k)
  {
  }

  /**
   * Metadata row i of a key carries exactly the label, hard_fail and y_horizon of the loaded row that
   * is the last of its window: the row at position i * stride + n - 1 in the key's order of time.
   */
  lemma MetaCarriesLabels(sort: Sorter, cells: seq<Cells>, hasChannel: bool, k: Key, n: nat, stride: nat, i: nat)
    requires Sorts(sort) && AllHaveKeys(cells, hasChannel) && n >= 1 && stride >= 1
    requires i < |MetaFor(sort, cells, hasChannel, k, n, stride)|
    ensures var order := Order(sort, Prepared(cells, hasChannel), k);
      var at := i * stride + n - 1;
      && TimeOrder(cells, hasChannel, k, order) && 0 <= at < |order| && 0 <= order[at] < |cells|
      && CarriesRow(MetaFor(sort, cells, hasChannel, k, n, stride)[i], cells[order[at]], k)
  {
    hide Sorts, HasKey, FillRow, OfKey, Order, Prepared, MetaOf, Group, MetaFor, CarriesRow;
    var rows := Prepared(cells, hasChannel);
    var order, at := Order(sort, rows, k), i * stride + n - 1;
    OrderIsTimeOrder(sort, cells, hasChannel, k);
    MetaIsGroupRow(sort, cells, hasChannel, k, n, stride, i);
    GroupRowAt(sort, rows, k, at);
    PreparedEach(cells, hasChannel);
    assert order[at] in order;
    MetaOfFilled(cells[order[at]], hasChannel, k);
  }

  // ------------------------------------------------------------------ labels added to the table

  /** The loaded table with its label columns added, row by row. */
  function LabelCells(sort: Sorter, cells: seq<Cells>, horizon: nat, osnr: real, ber: real): (r: seq<Cells>)
    requires Sorts(sort) && horizon >= 1 && AllHaveKeys(cells, true)
    ensures |r| == |cells|
  {
    PreparedEach(cells, true);
    var labelled := AddHorizonLabels(sort, Prepared(cells, true), horizon, osnr, ber);
    seq(|cells|, i requires 0 <= i < |cells| => cells[i].(extras := labelled[i].extras))
  }

  lemma LabelledPrepared(sort: Sorter, cells: seq<Cells>, horizon: nat, osnr: real, ber: real)
    requires Sorts(sort) && horizon >= 1 && AllHaveKeys(cells, true)
    ensures AllHaveKeys(LabelCells(sort, cells, horizon, osnr, ber), true)
    ensures Prepared(LabelCells(sort, cells, horizon, osnr, ber), true)
            == AddHorizonLabels(sort, Prepared(cells, true), horizon, osnr, ber)
  {
    hide Sorts, Prepared, Future, IsHardFail, FailColumn, PositionOf, Order;
    var after := LabelCells(sort, cells, horizon, osnr, ber);
    var rows := Prepared(cells, true);
    PreparedEach(cells, true);
    assert AllHaveKeys(after, true);
    PreparedEach(after, true);
    var labelled := AddHorizonLabels(sort, rows, horizon, osnr, ber);
    forall i | 0 <= i < |cells|
      ensures Prepared(after, true)[i] == labelled[i]
    {
      assert labelled[i] == LabelRow(sort, rows, horizon, osnr, ber, i);
    }
  }

  /** One of the next `horizon` rows of the order is a hard failure, by its own readings. */
  ghost predicate FailsSoon(cells: seq<Cells>, order: seq<int>, at: nat, horizon: nat, osnr: real, ber: real)
    requires forall p :: 0 <= p < |order| ==> 0 <= order[p] < |cells|
  {
    exists p :: at < p < |order| && p <= at + horizon && (cells[order[p]].osnrDb < osnr || cells[order[p]].ber > ber)
  }

  /**
   * Labelled, then sliced: metadata row i of a key keeps the name of its fault, says of the last row of
   * its window whether it is a hard failure, and whether one of that source's next `horizon` rows is,
   * all by the optical readings in the loaded table.
   */
  lemma LabelsReachMeta(sort: Sorter, cells: seq<Cells>, horizon: nat, osnr: real, ber: real,
                        k: Key, n: nat, stride: nat, i: nat)
    requires Sorts(sort) && horizon >= 1 && AllHaveKeys(cells, true) && n >= 1 && stride >= 1
    requires i < |MetaFor(sort, LabelCells(sort, cells, horizon, osnr, ber), true, k, n, stride)|
    ensures var m := MetaFor(sort, LabelCells(sort, cells, horizon, osnr, ber), true, k, n, stride)[i];
      var order := Order(sort, Prepared(cells, true), k);
      var at := i * stride + n - 1;
      && TimeOrder(cells, true, k, order) && 0 <= at < |order|
      && (forall p :: 0 <= p < |order| ==> 0 <= order[p] < |cells|)
      && m.tsUnixMs == cells[order[at]].tsUnixMs && m.extras.labelName == cells[order[at]].extras.labelName
      && m.extras.hardFail == Some(cells[order[at]].osnrDb < osnr || cells[order[at]].ber > ber)
      && m.extras.yHorizon == Some(if FailsSoon(cells, order, at, horizon, osnr, ber) then 1 else 0)
  {
    hide Sorts, HasKey, FillRow, OfKey, Order, Prepared, Group, MetaFor, FailsWithin, AddHorizonLabels, LabelCells;
    var after := LabelCells(sort, cells, horizon, osnr, ber);
    var rows, at := Prepared(cells, true), i * stride + n - 1;
    var labelled := AddHorizonLabels(sort, rows, horizon, osnr, ber);
    var group := Group(sort, labelled, k);
    var order := Order(sort, rows, k);
    LabelledPrepared(sort, cells, horizon, osnr, ber);
    MetaIsGroupRow(sort, after, true, k, n, stride, i);
    OrderIsTimeOrder(sort, cells, true, k);
    LabellingKeepsRows(sort, rows, horizon, osnr, ber);
    LabelledGroup(sort, rows, horizon, osnr, ber, k, at);
    GroupReadings(sort, cells, horizon, osnr, ber, k);
    FailsAlike(sort, cells, horizon, osnr, ber, k, at);
  }

  /**
   * Every row of the labelled table, in the table's own order, says of itself whether it is a hard
   * failure, and of the rows after it in its source's order of time whether one is within the horizon.
   */
  lemma EveryRowLabelled(sort: Sorter, cells: seq<Cells>, horizon: nat, osnr: real, ber: real, r: nat, k: Key)
    requires Sorts(sort) && horizon >= 1 && AllHaveKeys(cells, true) && r < |cells| && OfKey(cells[r], true, k)
    ensures var c, order := LabelCells(sort, cells, horizon, osnr, ber)[r], Order(sort, Prepared(cells, true), k);
      && c == cells[r].(extras := c.extras) && c.extras.labelName == cells[r].extras.labelName
      && c.extras.hardFail == Some(cells[r].osnrDb < osnr || cells[r].ber > ber)
      && TimeOrder(cells, true, k, order) && r in order
      && forall p :: 0 <= p < |order| && order[p] == r ==>
           c.extras.yHorizon == Some(if FailsSoon(cells, order, p, horizon, osnr, ber) then 1 else 0)
  {
    hide Sorts, HasKey, FillRow, OfKey, Order, Prepared, Group, FailsWithin, AddHorizonLabels, FailsSoon;
    var rows := Prepared(cells, true);
    var labelled := AddHorizonLabels(sort, rows, horizon, osnr, ber);
    var order := Order(sort, rows, k);
    OrderIsTimeOrder(sort, cells, true, k);
    PreparedEach(cells, true);
    FilledKey(cells[r], true, k);
    LabelledKeeps(sort, rows, horizon, osnr, ber, r);
    LabellingKeepsRows(sort, rows, horizon, osnr, ber);
    GroupReadings(sort, cells, horizon, osnr, ber, k);
    assert r in order;
    forall p: nat | p < |order| && order[p] == r
      ensures labelled[r].extras.hardFail == Some(cells[r].osnrDb < osnr || cells[r].ber > ber)
      ensures labelled[r].extras.yHorizon == Some(if FailsSoon(cells, order, p, horizon, osnr, ber) then 1 else 0)
    {
      GroupRowAt(sort, labelled, k, p);
      LabelledGroup(sort, rows, horizon, osnr, ber, k, p);
      FailsAlike(sort, cells, horizon, osnr, ber, k, p);
    }
  }

  /** The rows of the labelled group are the loaded rows in the order of time. */
  lemma GroupReadings(sort: Sorter, cells: seq<Cells>, horizon: nat, osnr: real, ber: real, k: Key)
    requires Sorts(sort) && horizon >= 1 && AllHaveKeys(cells, true)
    ensures var group := Group(sort, AddHorizonLabels(sort, Prepared(cells, true), horizon, osnr, ber), k);
      var order := Order(sort, Prepared(cells, true), k);
      && |group| == |order|
      && forall p :: 0 <= p < |order| ==>
           && 0 <= order[p] < |cells|
           && group[p].sample.tsUnixMs == cells[order[p]].tsUnixMs
           && group[p].sample.osnrDb == cells[order[p]].osnrDb && group[p].sample.ber == cells[order[p]].ber
           && group[p].extras.labelName == cells[order[p]].extras.labelName
  {
    hide Sorts, HasKey, FillRow, Order, Prepared, Group, AddHorizonLabels, RowKey;
    var rows := Prepared(cells, true);
    var labelled := AddHorizonLabels(sort, rows, horizon, osnr, ber);
    LabellingKeepsRows(sort, rows, horizon, osnr, ber);
    PreparedEach(cells, true);
    GroupOrderLength(sort, labelled, k);
    forall p | 0 <= p < |Order(sort, rows, k)|
      ensures 0 <= Order(sort, rows, k)[p] < |cells|
      ensures var row, c := Group(sort, labelled, k)[p], cells[Order(sort, rows, k)[p]];
        && row.sample.tsUnixMs == c.tsUnixMs && row.sample.osnrDb == c.osnrDb && row.sample.ber == c.ber
        && row.extras.labelName == c.extras.labelName
    {
      GroupRowAt(sort, labelled, k, p);
      var r := Order(sort, rows, k)[p];
      LabelledKeeps(sort, rows, horizon, osnr, ber, r);
      FilledKey(cells[r], true, k);
    }
  }

  lemma GroupOrderLength(sort: Sorter, rows: seq<Row>, k: Key)
    requires Sorts(sort)
    ensures |Group(sort, rows, k)| == |Order(sort, rows, k)|
  {
    hide Sorts;
    if rows == [] {
      EmptyGroup(sort, rows, k);
    } else {
      GroupIsOrder(sort, rows, k);
    }
  }

  lemma LabelledKeeps(sort: Sorter, rows: seq<Row>, horizon: nat, osnr: real, ber: real, r: nat)
    requires Sorts(sort) && horizon >= 1 && r < |rows|
    ensures var after := AddHorizonLabels(sort, rows, horizon, osnr, ber)[r];
      && after.sample == rows[r].sample && after.extras.labelName == rows[r].extras.labelName
      && after.convertible == rows[r].convertible
  {
    hide Sorts, Future, IsHardFail, FailColumn, PositionOf, Order;
  }

  lemma FailsAlike(sort: Sorter, cells: seq<Cells>, horizon: nat, osnr: real, ber: real, k: Key, at: nat)
    requires Sorts(sort) && horizon >= 1 && AllHaveKeys(cells, true)
    requires forall p :: 0 <= p < |Order(sort, Prepared(cells, true), k)| ==>
      0 <= Order(sort, Prepared(cells, true), k)[p] < |cells|
    ensures var group := Group(sort, AddHorizonLabels(sort, Prepared(cells, true), horizon, osnr, ber), k);
      FailsWithin(FailsOf(group, osnr, ber), at, horizon)
      <==> FailsSoon(cells, Order(sort, Prepared(cells, true), k), at, horizon, osnr, ber)
  {
    hide Sorts, HasKey, Order, Prepared, Group, AddHorizonLabels;
    GroupReadings(sort, cells, horizon, osnr, ber, k);
    var group := Group(sort, AddHorizonLabels(sort, Prepared(cells, true), horizon, osnr, ber), k);
    var order := Order(sort, Prepared(cells, true), k);
    var hf := FailsOf(group, osnr, ber);
    assert forall p :: 0 <= p < |order| ==> (hf[p] <==> cells[order[p]].osnrDb < osnr || cells[order[p]].ber > ber);
  }

  // ------------------------------------------------------------------ when loading fails

  /** An optional cell of the row cannot be converted to a number. */
  predicate Unconvertible(c: Cells) {
    c.edfaPumpMa == OtherNumber(None) || c.rxPowerDbm == OtherNumber(None)
  }

  lemma FilledConvertible(c: Cells, hasChannel: bool)
    requires HasKey(c, hasChannel)
    ensures FillRow(c, hasChannel).convertible <==> !Unconvertible(c)
  {
  }

  /** Slicing fails exactly when a key with a window's worth of rows has a cell that cannot be converted. */
  lemma LoadsIff(cells: seq<Cells>, hasChannel: bool, n: nat)
    requires AllHaveKeys(cells, hasChannel) && n >= 1
    ensures Loads(Prepared(cells, hasChannel), n) <==>
            forall r, k :: 0 <= r < |cells| && OfKey(cells[r], hasChannel, k) && Unconvertible(cells[r]) ==>
              |RowsOf(Prepared(cells, hasChannel), k)| < n
  {
    hide HasKey, FillRow, OfKey, Unconvertible, RowsOf, RowKey;
    var rows := Prepared(cells, hasChannel);
    PreparedEach(cells, hasChannel);
    forall r, k | 0 <= r < |cells| && OfKey(cells[r], hasChannel, k) && Unconvertible(cells[r])
      ensures rows[r] in RowsOf(rows, k) && k in TableKeys(rows) && !AllConvertible(RowsOf(rows, k))
    {
      FilledKey(cells[r], hasChannel, k);
      FilledConvertible(cells[r], hasChannel);
      RowsOfMember(rows, k, rows[r]);
      KeyPresent(rows, k);
    }
    forall k | !AllConvertible(RowsOf(rows, k))
      ensures exists r :: 0 <= r < |cells| && OfKey(cells[r], hasChannel, k) && Unconvertible(cells[r])
    {
      var row :| row in RowsOf(rows, k) && !row.convertible;
      RowsOfMember(rows, k, row);
      var r :| 0 <= r < |rows| && rows[r] == row;
      FilledKey(cells[r], hasChannel, k);
      FilledConvertible(cells[r], hasChannel);
    }
  }

  lemma RowsOfMember(rows: seq<Row>, k: Key, r: Row)
    ensures r in RowsOf(rows, k) <==> r in rows && RowKey(r) == k
  {
    FilterMember(rows, (x: Row) => RowKey(x) == k, r);
  }

  // ------------------------------------------------------------------ order of the output

  /** The first key precedes the second: by link, then by channel, each decided where the ids first differ. */
  ghost predicate KeyPrecedes(a: Key, b: Key) {
    Precedes(a.linkId, b.linkId) || (a.linkId == b.linkId && Precedes(a.channelId, b.channelId))
  }

  lemma KeyLessIff(a: Key, b: Key)
    ensures KeyLess(a, b) <==> KeyPrecedes(a, b)
  {
    hide Precedes, StringLess;
    StringLessIff(a.linkId, b.linkId);
    StringLessIff(a.channelId, b.channelId);
  }

  lemma {:induction false} WindowKeyListed(sort: Sorter, rows: seq<Row>, keys: seq<Key>, n: nat, stride: nat, i: nat)
    requires Sorts(sort) && stride >= 1 && n >= 1 && i < |WindowsOver(sort, rows, keys, n, stride)|
    ensures MetaKey(LastMeta(WindowsOver(sort, rows, keys, n, stride)[i])) in keys
    ensures keys != [] && i >= |WindowsOver(sort, rows, keys[..|keys| - 1], n, stride)| ==>
      MetaKey(LastMeta(WindowsOver(sort, rows, keys, n, stride)[i])) == keys[|keys| - 1]
  {
    hide Sorts, Group, GroupWindows, LastMeta, RowKey;
    var front, last := keys[..|keys| - 1], keys[|keys| - 1];
    var before := WindowsOver(sort, rows, front, n, stride);
    if i < |before| {
      WindowKeyListed(sort, rows, front, n, stride, i);
      assert forall k :: k in front ==> k in keys;
    } else {
      GroupWindowKey(sort, rows, last, n, stride, i - |before|);
    }
  }

  lemma GroupWindowKey(sort: Sorter, rows: seq<Row>, k: Key, n: nat, stride: nat, i: nat)
    requires Sorts(sort) && stride >= 1 && n >= 1 && i < |GroupWindows(Group(sort, rows, k), n, stride)|
    ensures MetaKey(LastMeta(GroupWindows(Group(sort, rows, k), n, stride)[i])) == k
  {
    hide Sorts, Group, GroupWindows, LastMeta;
    GroupWindowLast(Group(sort, rows, k), n, stride, i);
    GroupRows(sort, rows, k, Group(sort, rows, k)[i * stride + n - 1]);
  }

  lemma {:induction false} WindowKeysAscend(sort: Sorter, rows: seq<Row>, keys: seq<Key>, n: nat, stride: nat,
                                            i: nat, j: nat)
    requires Sorts(sort) && stride >= 1 && n >= 1 && KeysAscend(keys)
    requires i < j < |WindowsOver(sort, rows, keys, n, stride)|
    ensures var windows := WindowsOver(sort, rows, keys, n, stride);
      var a, b := MetaKey(LastMeta(windows[i])), MetaKey(LastMeta(windows[j]));
      a == b || KeyLess(a, b)
  {
    hide Sorts, Group, GroupWindows, LastMeta, KeyLess;
    var front, last := keys[..|keys| - 1], keys[|keys| - 1];
    var before := WindowsOver(sort, rows, front, n, stride);
    WindowKeyListed(sort, rows, keys, n, stride, i);
    WindowKeyListed(sort, rows, keys, n, stride, j);
    if j < |before| {
      WindowKeysAscend(sort, rows, front, n, stride, i, j);
    } else if i < |before| {
      WindowKeyListed(sort, rows, front, n, stride, i);
    }
  }

  /** The output comes in blocks, one a key, in ascending order of the keys. */
  lemma OutputAscends(sort: Sorter, rows: seq<Row>, n: nat, stride: nat, i: nat, j: nat)
    requires Sorts(sort) && stride >= 1 && n >= 1 && i < j < |Metas(BatchWindows(sort, rows, n, stride))|
    ensures var meta := Metas(BatchWindows(sort, rows, n, stride));
      MetaKey(meta[i]) == MetaKey(meta[j]) || KeyPrecedes(MetaKey(meta[i]), MetaKey(meta[j]))
  {
    hide Sorts, LastMeta, KeyLess, WindowsOver, KeyPrecedes;
    var meta := Metas(BatchWindows(sort, rows, n, stride));
    GroupKeysSorted(Map(rows, RowKey));
    WindowKeysAscend(sort, rows, TableKeys(rows), n, stride, i, j);
    KeyLessIff(MetaKey(meta[i]), MetaKey(meta[j]));
  }
}
