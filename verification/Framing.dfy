/** Newline framing: lines rebuilt from arbitrary chunks, with the guard against runaway lines. */
module Framing {
  import opened Basics

  newtype byte = b: int | 0 <= b < 256

  type Bytes = seq<byte>

  const NL: byte := 10
  const CR: byte := 13
  const LIMIT: nat := 1024 * 1024

  // ------------------------------------------------------------------ what a byte stream means

  function StripCr(line: Bytes): Bytes {
    if line != [] && line[|line| - 1] == CR then line[..|line| - 1] else line
  }

  /** What the handler gets for one terminated line: nothing if it is empty. */
  function Hand(line: Bytes): seq<Bytes> {
    if StripCr(line) == [] then [] else [StripCr(line)]
  }

  /** The bytes after the last newline. */
  function Rest(s: Bytes): Bytes {
    if s == [] || s[|s| - 1] == NL then [] else Rest(s[..|s| - 1]) + [s[|s| - 1]]
  }

  /** The lines handed over for the newlines in the stream, in order. */
  function Lines(s: Bytes): seq<Bytes> {
    if s == [] then []
    else if s[|s| - 1] == NL then Lines(s[..|s| - 1]) + Hand(Rest(s[..|s| - 1]))
    else Lines(s[..|s| - 1])
  }

  /** The bytes left when the peer goes away are handed over as they are. */
  function Flush(pending: Bytes): seq<Bytes> {
    if pending == [] then [] else [pending]
  }

  /** All the handler gets from a stream that is read in one piece. */
  function Meaning(s: Bytes): seq<Bytes> {
    Lines(s) + Flush(Rest(s))
  }

  function Concat(parts: seq<Bytes>): Bytes {
    if parts == [] then [] else parts[0] + Concat(parts[1..])
  }

  // ------------------------------------------------------------------ chunk by chunk

  /** A partial line beyond the limit is dropped. */
  function Guard(pending: Bytes): Bytes {
    if |pending| > LIMIT then [] else pending
  }

  /** What the handler gets from `chunks` when `pending` is already buffered. */
  function Deliver(pending: Bytes, chunks: seq<Bytes>): seq<Bytes>
    decreases |chunks|
  {
    if chunks == [] then Flush(pending)
    else Lines(pending + chunks[0]) + Deliver(Guard(Rest(pending + chunks[0])), chunks[1..])
  }

  /** Whether the guard drops anything on the way. */
  predicate Fires(pending: Bytes, chunks: seq<Bytes>)
    decreases |chunks|
  {
    chunks != [] &&
    (|Rest(pending + chunks[0])| > LIMIT || Fires(Guard(Rest(pending + chunks[0])), chunks[1..]))
  }

  /** One result of `recv`. */
  datatype Recv = Got(data: Bytes) | Interrupted | Failed

  /** The chunks read before end of stream, an error, or the end of service. */
  function Chunks(events: seq<Recv>): seq<Bytes> {
    if events == [] then []
    else match events[0]
      case Interrupted => Chunks(events[1..])
      case Failed => []
      case Got(data) => if data == [] then [] else [data] + Chunks(events[1..])
  }

  /** Position of the first newline at or after `start`, or -1. */
  function FindNl(s: Bytes, start: nat): (r: int)
    requires start <= |s|
    ensures r == -1 || start <= r < |s|
    ensures r == -1 ==> NL !in s[start..]
    ensures r != -1 ==> s[r] == NL && NL !in s[start..r]
    decreases |s| - start
  {
    if start == |s| then -1 else if s[start] == NL then start
    else
      var r := FindNl(s, start + 1);
      assert s[start..] == [s[start]] + s[start + 1..];
      assert r != -1 ==> s[start..r] == [s[start]] + s[start + 1..r];
      r
  }

  /** Hand over every complete line of the buffer and keep the rest. */
  method TakeLines(pending: Bytes) returns (handed: seq<Bytes>, rest: Bytes)
    ensures handed == Lines(pending) && rest == Rest(pending)
  {
    hide Lines, Rest;
    handed := [];
    var start := 0;
    NoBytes();
    assert pending[..0] == [];
    var nl := FindNl(pending, start);
    while nl != -1
      invariant 0 <= start <= |pending| && nl == FindNl(pending, start)
      invariant handed == Lines(pending[..start]) && Rest(pending[..start]) == []
      decreases |pending| - start
    {
      var line := pending[start..nl];
      LineEnds(pending[..start], line);
      assert pending[..nl + 1] == pending[..start] + line + [NL];
      if line != [] && line[|line| - 1] == CR {
        line := line[..|line| - 1];
      }
      if line != [] {
        handed := handed + [line];
      }
      start := nl + 1;
      nl := FindNl(pending, start);
    }
    rest := pending[start..];
    NoNewline(pending[..start], rest);
    assert pending == pending[..start] + rest && [] + rest == rest;
  }

  method HandleClient(events: seq<Recv>) returns (handed: seq<Bytes>)
    ensures handed == Deliver([], Chunks(events))
  {
    hide Lines, Rest, Guard;
    handed := [];
    var pending: Bytes := [];
    var i := 0;
    while i < |events|
      invariant 0 <= i <= |events|
      invariant handed + Deliver(pending, Chunks(events[i..])) == Deliver([], Chunks(events))
    {
      var event := events[i];
      assert events[i..][1..] == events[i + 1..];
      i := i + 1;
      match event {
        case Interrupted =>
          continue;
        case Failed =>
          break;
        case Got(data) =>
          if data == [] {
            break;
          }
          assert ([data] + Chunks(events[i..]))[1..] == Chunks(events[i..]);
          var lines, rest := TakeLines(pending + data);
          handed := handed + lines;
          pending := rest;
          GuardStep(pending);
          if |pending| > LIMIT {
            pending := [];
          }
      }
    }
    if pending != [] {
      handed := handed + [pending];
    }
  }

  lemma GuardStep(pending: Bytes)
    ensures Guard(pending) == if |pending| > LIMIT then [] else pending
  {
  }

  // ------------------------------------------------------------------ splitting a stream

  lemma NoBytes()
    ensures Lines([]) == [] && Rest([]) == []
  {
  }

  lemma OneByte(s: Bytes, b: byte)
    ensures Rest(s + [b]) == if b == NL then [] else Rest(s) + [b]
    ensures Lines(s + [b]) == if b == NL then Lines(s) + Hand(Rest(s)) else Lines(s)
  {
    assert (s + [b])[..|s|] == s;
  }

  lemma {:induction false} NoNewline(a: Bytes, x: Bytes)
    requires NL !in x
    ensures Rest(a + x) == Rest(a) + x && Lines(a + x) == Lines(a)
  {
    hide Lines, Rest;
    if x == [] {
      assert a + x == a && Rest(a) + x == Rest(a);
    } else {
      var front, b := x[..|x| - 1], x[|x| - 1];
      assert b in x;
      NoNewline(a, front);
      OneByte(a + front, b);
      assert a + x == a + front + [b] && Rest(a) + x == Rest(a) + front + [b];
    }
  }

  lemma PendingIsRest(pending: Bytes)
    requires NL !in pending
    ensures Rest(pending) == pending && Lines(pending) == []
  {
    hide Lines, Rest;
    NoBytes();
    NoNewline([], pending);
    assert [] + pending == pending;
  }

  lemma LineEnds(a: Bytes, line: Bytes)
    requires NL !in line && Rest(a) == []
    ensures Lines(a + line + [NL]) == Lines(a) + Hand(line)
    ensures Rest(a + line + [NL]) == []
  {
    hide Lines, Rest;
    NoNewline(a, line);
    assert [] + line == line;
    OneByte(a + line, NL);
  }

  lemma {:induction false} RestHasNoNewline(s: Bytes)
    ensures NL !in Rest(s)
  {
    if s != [] && s[|s| - 1] != NL {
      RestHasNoNewline(s[..|s| - 1]);
    }
  }

  /** Reading a stream in two parts is reading the first and carrying its rest into the second. */
  lemma {:induction false} ReadOn(a: Bytes, b: Bytes)
    ensures Lines(a + b) == Lines(a) + Lines(Rest(a) + b)
    ensures Rest(a + b) == Rest(Rest(a) + b)
  {
    hide Lines, Rest, Hand;
    if b == [] {
      RestHasNoNewline(a);
      PendingIsRest(Rest(a));
      assert a + b == a && Rest(a) + b == Rest(a);
    } else {
      var front, last := b[..|b| - 1], b[|b| - 1];
      ReadOn(a, front);
      OneByte(a + front, last);
      OneByte(Rest(a) + front, last);
      assert a + b == a + front + [last];
      assert Rest(a) + b == Rest(a) + front + [last];
    }
  }

  lemma MeaningReadOn(a: Bytes, b: Bytes)
    ensures Meaning(a + b) == Lines(a) + Meaning(Rest(a) + b)
  {
    hide Lines, Rest;
    ReadOn(a, b);
  }

  lemma MeaningOfRest(pending: Bytes)
    requires NL !in pending
    ensures Meaning(pending) == Flush(pending)
  {
    hide Lines, Rest;
    PendingIsRest(pending);
  }

  /** A newline at the end of a stream makes no difference exactly when what it terminates does not end in CR. */
  lemma FinalNewlineIff(s: Bytes)
    ensures Meaning(s + [NL]) == Meaning(s) <==> Rest(s) == [] || Rest(s)[|Rest(s)| - 1] != CR
  {
    hide Lines, Rest;
    OneByte(s, NL);
    SamePrefix(Lines(s), Hand(Rest(s)), Flush(Rest(s)));
  }

  lemma SamePrefix(a: seq<Bytes>, b: seq<Bytes>, c: seq<Bytes>)
    ensures a + b == a + c <==> b == c
  {
    assert (a + b)[|a|..] == b && (a + c)[|a|..] == c;
  }

  /** A line "a" that ends in CR reaches the handler with the CR if the connection closes before its newline. */
  lemma UnterminatedKeepsCr()
    ensures Meaning([97, 13, 10]) == [[97]] && Meaning([97, 13]) == [[97, 13]]
  {
    hide Lines, Rest;
    PendingIsRest([97, CR]);
    assert [97, CR] + [NL] == [97, CR, NL];
    OneByte([97, CR], NL);
    assert StripCr([97, CR]) == [97];
  }

  /** Of a terminated line exactly one CR is taken off, and an empty line or one CR alone is not handed over. */
  lemma TerminatedLine(line: Bytes)
    requires 10 !in line
    ensures line == [] || line == [13] ==> Meaning(line + [10]) == []
    ensures line != [] && line[|line| - 1] != 13 ==> Meaning(line + [10]) == [line]
    ensures line != [] ==> Meaning(line + [13, 10]) == [line]
  {
    hide Lines, Rest;
    NoBytes();
    OneTerminated(line);
    OneTerminated(line + [13]);
    assert line + [13] + [10] == line + [13, 10];
    assert (line + [13])[..|line|] == line;
  }

  lemma OneTerminated(line: Bytes)
    requires NL !in line
    ensures Meaning(line + [NL]) == Hand(line)
  {
    hide Lines, Rest;
    NoBytes();
    LineEnds([], line);
    assert [] + line == line;
    assert Lines([]) + Hand(line) == Hand(line);
  }

  // ------------------------------------------------------------------ chunk independence

  /** As long as the guard stays silent, only the concatenated bytes matter, not how they were cut. */
  lemma {:induction false} SilentGuardDelivers(pending: Bytes, chunks: seq<Bytes>)
    requires NL !in pending && !Fires(pending, chunks)
    ensures Deliver(pending, chunks) == Meaning(pending + Concat(chunks))
    decreases |chunks|
  {
    hide Lines, Rest, Meaning;
    if chunks == [] {
      assert pending + Concat(chunks) == pending;
      MeaningOfRest(pending);
    } else {
      var data := pending + chunks[0];
      RestHasNoNewline(data);
      SilentGuardDelivers(Rest(data), chunks[1..]);
      MeaningReadOn(data, Concat(chunks[1..]));
      assert pending + Concat(chunks) == data + Concat(chunks[1..]);
    }
  }

  function Weight(lines: seq<Bytes>): nat {
    if lines == [] then 0 else Weight(lines[..|lines| - 1]) + |lines[|lines| - 1]|
  }

  lemma {:induction false} WeightConcat(a: seq<Bytes>, b: seq<Bytes>)
    ensures Weight(a + b) == Weight(a) + Weight(b)
  {
    if b == [] {
      assert a + b == a;
    } else {
      WeightConcat(a, b[..|b| - 1]);
      assert (a + b)[..|a + b| - 1] == a + b[..|b| - 1];
    }
  }

  lemma HandWeight(line: Bytes)
    ensures |line| - 1 <= Weight(Hand(line)) <= |line|
  {
  }

  /** The bytes handed over so far and those still waiting. */
  function Load(s: Bytes): nat {
    Weight(Lines(s)) + |Rest(s)|
  }

  lemma LoadIsWeight(s: Bytes)
    ensures Weight(Meaning(s)) == Load(s)
  {
    hide Lines, Rest;
    WeightConcat(Lines(s), Flush(Rest(s)));
  }

  lemma LoadOneByte(s: Bytes, b: byte)
    ensures b == NL ==> Load(s) - 1 <= Load(s + [b]) <= Load(s)
    ensures b != NL ==> Load(s + [b]) == Load(s) + 1
  {
    hide Lines, Rest, Hand, Weight;
    OneByte(s, b);
    WeightConcat(Lines(s), Hand(Rest(s)));
    HandWeight(Rest(s));
  }

  /** Dropping a prefix of at least two bytes loses for good what the next newline would have handed over. */
  ghost predicate Behind(p: Bytes, s: Bytes) {
    Load(s) < Load(p + s) && (Rest(p + s) == Rest(s) || (NL !in s && Load(p + s) == Load(s) + |p|))
  }

  lemma {:induction false} StaysBehind(p: Bytes, s: Bytes)
    requires NL !in p && |p| >= 2
    ensures Behind(p, s)
  {
    hide Lines, Rest, Load;
    if NL !in s {
      PendingLoad(s);
      PendingLoad(p + s);
    } else {
      var front, b := s[..|s| - 1], s[|s| - 1];
      StaysBehind(p, front);
      OneByte(front, b);
      OneByte(p + front, b);
      LoadOneByte(front, b);
      LoadOneByte(p + front, b);
      assert p + s == p + front + [b] && s == front + [b];
      if Rest(p + front) == Rest(front) {
        SameRestSameGain(p + front, front, b);
      }
    }
  }

  lemma PendingLoad(s: Bytes)
    requires NL !in s
    ensures Load(s) == |s|
  {
    hide Lines, Rest;
    PendingIsRest(s);
  }

  lemma SameRestSameGain(s: Bytes, t: Bytes, b: byte)
    requires Rest(s) == Rest(t)
    ensures Load(s + [b]) - Load(s) == Load(t + [b]) - Load(t)
  {
    hide Lines, Rest, Hand, Weight;
    OneByte(s, b);
    OneByte(t, b);
    WeightConcat(Lines(s), Hand(Rest(s)));
    WeightConcat(Lines(t), Hand(Rest(t)));
  }

  lemma {:induction false} GuardOnlyLoses(pending: Bytes, chunks: seq<Bytes>)
    requires NL !in pending
    ensures Weight(Deliver(pending, chunks)) <= Weight(Meaning(pending + Concat(chunks)))
    ensures Fires(pending, chunks) ==> Weight(Deliver(pending, chunks)) < Weight(Meaning(pending + Concat(chunks)))
    decreases |chunks|
  {
    hide Lines, Rest, Meaning, Weight;
    if !Fires(pending, chunks) {
      SilentGuardDelivers(pending, chunks);
    } else {
      var data, later := pending + chunks[0], Concat(chunks[1..]);
      var rest := Rest(data);
      RestHasNoNewline(data);
      GuardOnlyLoses(Guard(rest), chunks[1..]);
      MeaningReadOn(data, later);
      assert pending + Concat(chunks) == data + later;
      WeightConcat(Lines(data), Deliver(Guard(rest), chunks[1..]));
      WeightConcat(Lines(data), Meaning(rest + later));
      if |rest| > LIMIT {
        StaysBehind(rest, later);
        LoadIsWeight(later);
        LoadIsWeight(rest + later);
        assert [] + later == later;
      }
    }
  }

  /** The handler gets exactly the lines of the stream if and only if the guard never fires. */
  lemma DeliversExactlyIff(chunks: seq<Bytes>)
    ensures Deliver([], chunks) == Meaning(Concat(chunks)) <==> !Fires([], chunks)
  {
    hide Lines, Rest, Meaning, Weight, Deliver, Fires;
    assert [] + Concat(chunks) == Concat(chunks);
    GuardOnlyLoses([], chunks);
    if !Fires([], chunks) {
      SilentGuardDelivers([], chunks);
    }
  }

  // ------------------------------------------------------------------ when every chunking is safe

  /** Chunks as the 8192-byte read buffer can return them. */
  ghost predicate Readable(chunks: seq<Bytes>) {
    forall i :: 0 <= i < |chunks| ==> 1 <= |chunks[i]| <= 8192
  }

  /** No newline-free run of the stream is longer than the limit. */
  ghost predicate Calm(s: Bytes) {
    forall k :: 0 <= k <= |s| ==> |Rest(s[..k])| <= LIMIT
  }

  lemma CalmLater(pending: Bytes, c: Bytes, later: Bytes)
    requires Calm(pending + c + later)
    ensures |Rest(pending + c)| <= LIMIT && Calm(Rest(pending + c) + later)
  {
    hide Lines, Rest;
    var data := pending + c;
    var whole := data + later;
    assert whole[..|data|] == data;
    var rest := Rest(data);
    RestHasNoNewline(data);
    forall k | 0 <= k <= |rest + later|
      ensures |Rest((rest + later)[..k])| <= LIMIT
    {
      if k <= |rest| {
        assert (rest + later)[..k] == rest[..k];
        PendingIsRest(rest[..k]);
      } else {
        var m := k - |rest|;
        assert (rest + later)[..k] == rest + later[..m];
        ReadOn(data, later[..m]);
        assert whole[..|data| + m] == data + later[..m];
      }
    }
  }

  lemma {:induction false} CalmNeverFires(pending: Bytes, chunks: seq<Bytes>)
    requires Calm(pending + Concat(chunks))
    ensures !Fires(pending, chunks)
    decreases |chunks|
  {
    if chunks != [] {
      var later := Concat(chunks[1..]);
      assert pending + Concat(chunks) == pending + chunks[0] + later;
      CalmLater(pending, chunks[0], later);
      CalmNeverFires(Rest(pending + chunks[0]), chunks[1..]);
    }
  }

  /** The stream cut into single bytes. */
  function Singles(s: Bytes): (r: seq<Bytes>)
    ensures |r| == |s|
    ensures forall i :: 0 <= i < |r| ==> r[i] == [s[i]]
  {
    seq(|s|, i requires 0 <= i < |s| => [s[i]])
  }

  lemma {:induction false} SinglesConcat(s: Bytes)
    ensures Concat(Singles(s)) == s
  {
    if s != [] {
      assert Singles(s)[1..] == Singles(s[1..]);
      SinglesConcat(s[1..]);
    }
  }

  lemma {:induction false} SinglesFire(pending: Bytes, s: Bytes, k: nat)
    requires k <= |s| && NL !in pending && |pending| <= LIMIT
    requires |Rest(pending + s[..k])| > LIMIT
    ensures Fires(pending, Singles(s))
    decreases |s|
  {
    hide Lines, Rest;
    PendingIsRest(pending);
    assert pending + s[..0] == pending;
    if k > 0 {
      var data := pending + Singles(s)[0];
      assert Singles(s)[1..] == Singles(s[1..]);
      if |Rest(data)| <= LIMIT {
        RestHasNoNewline(data);
        assert pending + s[..k] == data + s[1..][..k - 1];
        ReadOn(data, s[1..][..k - 1]);
        SinglesFire(Rest(data), s[1..], k - 1);
      }
    }
  }

  /** Every way of cutting the stream is safe exactly when no newline-free run exceeds 1 MiB. */
  lemma EveryChunkingSafeIff(s: Bytes)
    ensures (forall chunks :: Readable(chunks) && Concat(chunks) == s ==> Deliver([], chunks) == Meaning(s))
            <==> Calm(s)
  {
    hide Lines, Rest, Meaning, Deliver, Fires;
    if Calm(s) {
      forall chunks | Readable(chunks) && Concat(chunks) == s
        ensures Deliver([], chunks) == Meaning(s)
      {
        assert [] + Concat(chunks) == s;
        CalmNeverFires([], chunks);
        DeliversExactlyIff(chunks);
      }
    } else {
      var k :| 0 <= k <= |s| && |Rest(s[..k])| > LIMIT;
      assert [] + s[..k] == s[..k];
      SinglesFire([], s, k);
      SinglesConcat(s);
      DeliversExactlyIff(Singles(s));
      assert Readable(Singles(s));
    }
  }

  // ------------------------------------------------------------------ what a connection delivers

  /** Everything the events carry. */
  function AllData(events: seq<Recv>): Bytes {
    if events == [] then []
    else (if events[0].Got? then events[0].data else []) + AllData(events[1..])
  }

  /** Reads go on until the events run out: data every time, or an interrupt. */
  ghost predicate Reading(events: seq<Recv>) {
    forall i :: 0 <= i < |events| ==> events[i] == Interrupted || (events[i].Got? && events[i].data != [])
  }

  /** The peer closed the connection or the read failed. */
  predicate Ends(e: Recv) {
    e == Failed || e == Got([])
  }

  /** What the handler gets over the connection, as `HandleClient` promises. */
  function Handed(events: seq<Recv>): seq<Bytes> {
    Deliver([], Chunks(events))
  }

  lemma {:induction false} ReadingData(events: seq<Recv>)
    requires Reading(events)
    ensures Concat(Chunks(events)) == AllData(events)
  {
    if events != [] {
      ReadingData(events[1..]);
      if events[0].Got? {
        assert Chunks(events)[1..] == Chunks(events[1..]);
      }
    }
  }

  /**
   * As long as it keeps reading data, with interrupts or without, and no newline-free run of the data
   * exceeds 1 MiB, the connection hands over exactly what all its data means.
   */
  lemma ConnectionDelivers(events: seq<Recv>)
    requires Reading(events) && Calm(AllData(events))
    ensures Handed(events) == Meaning(AllData(events))
  {
    hide Meaning, Deliver, Calm, Chunks, Fires;
    ReadingData(events);
    var chunks := Chunks(events);
    assert [] + Concat(chunks) == Concat(chunks);
    CalmNeverFires([], chunks);
    DeliversExactlyIff(chunks);
  }

  lemma {:induction false} ChunksConcat(a: seq<Recv>, b: seq<Recv>)
    requires Reading(a)
    ensures Chunks(a + b) == Chunks(a) + Chunks(b)
  {
    if a == [] {
      assert a + b == b;
    } else {
      ChunksConcat(a[1..], b);
      assert (a + b)[0] == a[0] && (a + b)[1..] == a[1..] + b;
    }
  }

  /** The first event at or after `i` that ends the connection. */
  lemma {:induction false} FirstEnd(a: seq<Recv>, i: nat) returns (k: nat)
    requires i <= |a| && Reading(a[..i]) && !Reading(a)
    ensures i <= k < |a| && Reading(a[..k]) && Ends(a[k])
    decreases |a| - i
  {
    assert a[..|a|] == a;
    if Ends(a[i]) {
      k := i;
    } else {
      assert a[..i + 1] == a[..i] + [a[i]];
      k := FirstEnd(a, i + 1);
    }
  }

  /** Whatever follows the end of the connection, or an error, changes nothing. */
  lemma NothingAfterEnd(before: seq<Recv>, end: Recv, later: seq<Recv>)
    requires Ends(end)
    ensures Handed(before + [end] + later) == Handed(before)
  {
    hide Deliver, Reading;
    if Reading(before) {
      ChunksConcat(before, [end] + later);
      assert before + ([end] + later) == before + [end] + later;
      assert Chunks([end] + later) == [];
      assert Chunks(before) + [] == Chunks(before);
    } else {
      NothingRead(before);
      var k := FirstEnd(before, 0);
      CutAtEnd(before, k);
      assert (before + [end] + later)[..k] == before[..k];
      CutAtEnd(before + [end] + later, k);
    }
  }

  lemma NothingRead(events: seq<Recv>)
    ensures Reading(events[..0])
  {
  }

  lemma CutAtEnd(events: seq<Recv>, k: nat)
    requires k < |events| && Reading(events[..k]) && Ends(events[k])
    ensures Chunks(events) == Chunks(events[..k])
  {
    ChunksConcat(events[..k], events[k..]);
    assert events == events[..k] + events[k..];
    assert Chunks(events[k..]) == [];
  }

  /** An interrupted read changes nothing. */
  lemma InterruptsChangeNothing(before: seq<Recv>, later: seq<Recv>)
    ensures Handed(before + [Interrupted] + later) == Handed(before + later)
  {
    hide Deliver, Reading;
    if Reading(before) {
      ChunksConcat(before, [Interrupted] + later);
      ChunksConcat(before, later);
      assert before + ([Interrupted] + later) == before + [Interrupted] + later;
      assert ([Interrupted] + later)[1..] == later;
    } else {
      NothingRead(before);
      var k := FirstEnd(before, 0);
      assert (before + [Interrupted] + later)[..k] == before[..k] && (before + later)[..k] == before[..k];
      CutAtEnd(before + [Interrupted] + later, k);
      CutAtEnd(before + later, k);
    }
  }

  /**
   * When a partial line has grown beyond 1048576 bytes it is forgotten, and the rest of the connection
   * is read as if it began there; up to that many bytes are kept.
   */
  lemma GuardForgets(pending: Bytes, data: Bytes, later: seq<Bytes>)
    ensures |Rest(pending + data)| > 1048576 ==>
      Deliver(pending, [data] + later) == Lines(pending + data) + Deliver([], later)
    ensures |Rest(pending + data)| <= 1048576 ==>
      Deliver(pending, [data] + later) == Lines(pending + data) + Deliver(Rest(pending + data), later)
  {
    hide Lines, Rest;
    assert ([data] + later)[1..] == later;
  }

  // ------------------------------------------------------------------ round trip

  /** What sending each line puts on the wire. */
  function Encode(lines: seq<Bytes>): Bytes {
    if lines == [] then [] else Encode(lines[..|lines| - 1]) + lines[|lines| - 1] + [NL]
  }

  predicate Clean(line: Bytes) {
    line != [] && NL !in line && line[|line| - 1] != CR
  }

  function HandAll(lines: seq<Bytes>): (r: seq<Bytes>)
    ensures |r| <= |lines|
    ensures lines != [] ==> |Hand(lines[|lines| - 1])| <= 1
  {
    if lines == [] then [] else HandAll(lines[..|lines| - 1]) + Hand(lines[|lines| - 1])
  }

  lemma {:induction false} MeaningOfEncoded(lines: seq<Bytes>)
    requires forall i :: 0 <= i < |lines| ==> NL !in lines[i]
    ensures Lines(Encode(lines)) == HandAll(lines) && Rest(Encode(lines)) == []
  {
    hide Lines, Rest, Hand;
    if lines != [] {
      var front := lines[..|lines| - 1];
      MeaningOfEncoded(front);
      LineEnds(Encode(front), lines[|lines| - 1]);
    } else {
      NoBytes();
    }
  }

  lemma HandedWhole(line: Bytes)
    requires NL !in line
    ensures Hand(line) == [line] <==> Clean(line)
  {
  }

  lemma {:induction false} HandAllIdentity(lines: seq<Bytes>)
    requires forall i :: 0 <= i < |lines| ==> NL !in lines[i]
    ensures HandAll(lines) == lines <==> forall i :: 0 <= i < |lines| ==> Clean(lines[i])
  {
    hide Hand, Clean;
    if lines != [] {
      var front, last := lines[..|lines| - 1], lines[|lines| - 1];
      HandAllIdentity(front);
      HandedWhole(last);
      assert lines == front + [last];
      if HandAll(lines) == lines {
        SameSplit(HandAll(front), Hand(last), front, last);
      }
    }
  }

  lemma SameSplit(a: seq<Bytes>, b: seq<Bytes>, front: seq<Bytes>, last: Bytes)
    requires |a| <= |front| && |b| <= 1 && a + b == front + [last]
    ensures a == front && b == [last]
  {
    assert a == (a + b)[..|front|] == front;
    assert b[0] == (a + b)[|front|] == last;
  }

  lemma {:induction false} HandedLinesHaveNoNewline(s: Bytes)
    ensures forall i :: 0 <= i < |Lines(s)| ==> NL !in Lines(s)[i]
  {
    if s != [] {
      HandedLinesHaveNoNewline(s[..|s| - 1]);
      RestHasNoNewline(s[..|s| - 1]);
    }
  }

  /** Lines survive their encoding exactly when each is non-empty, free of newlines and not ending in CR. */
  lemma EncodedMeaningIff(lines: seq<Bytes>)
    ensures Meaning(Encode(lines)) == lines <==> forall i :: 0 <= i < |lines| ==> Clean(lines[i])
  {
    if Meaning(Encode(lines)) == lines || forall i :: 0 <= i < |lines| ==> Clean(lines[i]) {
      HandedLinesHaveNoNewline(Encode(lines));
      RestHasNoNewline(Encode(lines));
      assert forall i :: 0 <= i < |lines| ==> NL !in lines[i];
      MeaningOfEncoded(lines);
      HandAllIdentity(lines);
    }
  }

  lemma {:induction false} EncodedCalmIff(lines: seq<Bytes>)
    requires forall i :: 0 <= i < |lines| ==> NL !in lines[i]
    ensures Calm(Encode(lines)) <==> forall i :: 0 <= i < |lines| ==> |lines[i]| <= LIMIT
  {
    hide Lines, Rest, Calm;
    if lines == [] {
      NothingCalm();
    } else {
      var front, last := lines[..|lines| - 1], lines[|lines| - 1];
      EncodedCalmIff(front);
      MeaningOfEncoded(front);
      OneMoreLineCalm(Encode(front), last);
      assert lines == front + [last];
      assert (forall i :: 0 <= i < |lines| ==> |lines[i]| <= LIMIT)
        <==> (forall i :: 0 <= i < |front| ==> |front[i]| <= LIMIT) && |last| <= LIMIT;
    }
  }

  lemma NothingCalm()
    ensures Calm([])
  {
  }

  /** Positions of the stream inside `a`, inside the line, and at its end. */
  lemma RestInside(a: Bytes, line: Bytes, k: nat)
    requires NL !in line && Rest(a) == [] && k <= |a| + |line| + 1
    ensures var s := a + line + [NL];
      Rest(s[..k]) == if k <= |a| then Rest(a[..k]) else if k <= |a| + |line| then line[..k - |a|] else []
  {
    hide Lines, Rest;
    var s := a + line + [NL];
    if k <= |a| {
      assert s[..k] == a[..k];
    } else if k <= |a| + |line| {
      assert s[..k] == a + line[..k - |a|];
      NoNewline(a, line[..k - |a|]);
    } else {
      LineEnds(a, line);
      assert s[..k] == s;
    }
  }

  lemma OneMoreLineCalm(a: Bytes, line: Bytes)
    requires NL !in line && Rest(a) == []
    ensures Calm(a + line + [NL]) <==> Calm(a) && |line| <= LIMIT
  {
    hide Lines, Rest;
    var s := a + line + [NL];
    forall k | 0 <= k <= |s|
      ensures Rest(s[..k]) == if k <= |a| then Rest(a[..k]) else if k <= |a| + |line| then line[..k - |a|] else []
    {
      RestInside(a, line, k);
    }
    if Calm(s) {
      assert |Rest(s[..|a| + |line|])| <= LIMIT;
      assert forall k :: 0 <= k <= |a| ==> |Rest(s[..k])| <= LIMIT;
    }
  }

  /**
   * A list of lines reaches the handler unchanged however the connection cuts it, if and only if
   * every line is non-empty, free of newlines, not ending in CR, and at most 1 MiB long.
   */
  lemma RoundTripIff(lines: seq<Bytes>)
    ensures (forall chunks :: Readable(chunks) && Concat(chunks) == Encode(lines) ==> Deliver([], chunks) == lines)
            <==> forall i :: 0 <= i < |lines| ==> Clean(lines[i]) && |lines[i]| <= 1048576
  {
    hide Lines, Rest, Meaning, Deliver, Encode, Calm;
    var s := Encode(lines);
    EncodedMeaningIff(lines);
    EveryChunkingSafeIff(s);
    if forall i :: 0 <= i < |lines| ==> Clean(lines[i]) {
      EncodedCalmIff(lines);
    } else {
      SomeChunkingFails(lines);
    }
  }

  lemma {:induction false} LoadOfAppended(s: Bytes, x: Bytes)
    ensures Load(s + x) <= Load(s) + |x|
  {
    hide Load;
    if x == [] {
      assert s + x == s;
    } else {
      var front, b := x[..|x| - 1], x[|x| - 1];
      LoadOfAppended(s, front);
      LoadOneByte(s + front, b);
      assert s + x == s + front + [b];
    }
  }

  /** Framing never makes up bytes. */
  lemma {:induction false} LoadOfEncoded(lines: seq<Bytes>)
    ensures Load(Encode(lines)) <= Weight(lines)
  {
    hide Lines, Rest, Load;
    if lines != [] {
      var front, last := lines[..|lines| - 1], lines[|lines| - 1];
      LoadOfEncoded(front);
      LoadOfAppended(Encode(front), last);
      LoadOneByte(Encode(front) + last, NL);
    } else {
      PendingLoad([]);
    }
  }

  /** A guard that fires loses bytes, so it cannot make an unclean list come out right. */
  lemma SomeChunkingFails(lines: seq<Bytes>)
    requires Meaning(Encode(lines)) != lines
    ensures exists chunks :: Readable(chunks) && Concat(chunks) == Encode(lines) && Deliver([], chunks) != lines
  {
    hide Lines, Rest, Load, Meaning, Deliver, Fires, Weight, Encode;
    var s := Encode(lines);
    var chunks := Singles(s);
    SinglesConcat(s);
    assert Readable(chunks);
    assert [] + Concat(chunks) == s;
    GuardOnlyLoses([], chunks);
    LoadIsWeight(s);
    LoadOfEncoded(lines);
    DeliversExactlyIff(chunks);
    assert Deliver([], chunks) != lines;
  }

  // ------------------------------------------------------------------ sending

  type Count = n: nat | 1 <= n witness 1

  /** One result of `send`: bytes taken by the socket, or nothing with or without an interrupt. */
  datatype Sent = Wrote(n: Count) | NotYet | Broken

  /** Bytes the socket takes until it breaks. */
  function Taken(results: seq<Sent>): nat {
    if results == [] then 0
    else match results[0]
      case NotYet => Taken(results[1..])
      case Broken => 0
      case Wrote(n) => n + Taken(results[1..])
  }

  /**
   * `results` are what successive `send` calls report; a peer that is gone is where they run out.
   * `wire` is what reached the socket.
   */
  method SendLine(line: Bytes, results: seq<Sent>) returns (ok: bool, wire: Bytes)
    ensures wire == (line + [10])[..Min(|line| + 1, Taken(results))]
    ensures ok <==> wire == line + [10]
  {
    var payload := line + [NL];
    var sent := 0;
    var i := 0;
    while sent < |payload|
      invariant 0 <= sent <= |payload| && 0 <= i <= |results|
      invariant Min(|payload|, sent + Taken(results[i..])) == Min(|payload|, Taken(results))
      decreases |results| - i
    {
      if i == |results| {
        return false, payload[..sent];
      }
      var result := results[i];
      assert results[i..][1..] == results[i + 1..];
      i := i + 1;
      match result {
        case NotYet =>
          continue;
        case Broken =>
          return false, payload[..sent];
        case Wrote(n) =>
          // the socket never takes more than it is offered
          sent := sent + Min(n, |payload| - sent);
      }
    }
    return true, payload;
  }

  /** What is sent for one line is that line as the receiver expects it. */
  lemma OneLineEncoded(line: Bytes)
    ensures Encode([line]) == line + [10]
  {
    assert [line][..0] == [];
    assert Encode([]) + line == line;
  }

  /** Sends that take nothing do not matter, and what comes after a broken one does not either. */
  lemma {:induction false} TakenBySends(before: seq<Sent>, later: seq<Sent>)
    ensures Taken(before + [NotYet] + later) == Taken(before + later)
    ensures Taken(before + [Broken] + later) == Taken(before)
  {
    if before == [] {
      assert before + [NotYet] + later == [NotYet] + later && ([NotYet] + later)[1..] == later;
      assert before + [Broken] + later == [Broken] + later && before + later == later;
    } else {
      TakenBySends(before[1..], later);
      assert (before + [NotYet] + later)[1..] == before[1..] + [NotYet] + later;
      assert (before + [Broken] + later)[1..] == before[1..] + [Broken] + later;
      assert (before + later)[1..] == before[1..] + later;
    }
  }

  /** Unbroken sends take what each of them reports. */
  lemma {:induction false} TakenAddsUp(before: seq<Sent>, n: Count)
    requires forall i :: 0 <= i < |before| ==> before[i] != Broken
    ensures Taken(before + [Wrote(n)]) == Taken(before) + n && Taken([]) == 0
  {
    if before == [] {
      assert before + [Wrote(n)] == [Wrote(n)];
    } else {
      TakenAddsUp(before[1..], n);
      assert (before + [Wrote(n)])[1..] == before[1..] + [Wrote(n)];
    }
  }
}
