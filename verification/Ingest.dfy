/** The ingest process: samples demultiplexed by key into rolling windows, one frame per sample once full. */
module Ingest {
  import opened Basics
  import opened Telemetry

  /** The bucket of a sample: link and channel joined by a bar. */
  function WindowKey(linkId: string, channelId: string): string {
    linkId + "|" + channelId
  }

  function KeyOf(s: Sample): string {
    WindowKey(s.linkId, s.channelId)
  }

  function WindowAt(windows: map<string, seq<Sample>>, key: string): seq<Sample> {
    if key in windows then windows[key] else []
  }

  /** The windows after one accepted sample. */
  function Accept(windows: map<string, seq<Sample>>, s: Sample, capacity: nat): map<string, seq<Sample>> {
    windows[KeyOf(s) := Roll(WindowAt(windows, KeyOf(s)), s, capacity)]
  }

  class IngestService {
    const lib: Library
    var windows: map<string, Window>
    var accepted: int
    var invalid: int
    var invalidSinceLog: int
    var lastInvalidLogS: real
    var frames: int

    /** Each key owns its own window, all of the fixed capacity. */
    ghost predicate Valid()
      reads this, windows.Values
    {
      && (forall k :: k in windows ==> windows[k].capacity == WINDOW_N)
      && (forall a, b :: a in windows && b in windows && a != b ==> windows[a] != windows[b])
    }

    ghost function View(): map<string, seq<Sample>>
      reads this, windows.Values
    {
      map k | k in windows :: windows[k].samples
    }

    constructor (lib: Library, nowS: real)
      ensures Valid() && View() == map[] && this.lib == lib
      ensures accepted == 0 && invalid == 0 && invalidSinceLog == 0 && frames == 0 && lastInvalidLogS == nowS
    {
      this.lib := lib;
      windows := map[];
      accepted, invalid, invalidSinceLog, frames := 0, 0, 0, 0;
      lastInvalidLogS := nowS;
    }

    /** Find the key's window, creating it on first sight. */
    method FindOrCreate(key: string) returns (w: Window)
      requires Valid()
      modifies this`windows
      ensures Valid() && key in windows && windows[key] == w
      ensures forall k :: k in windows <==> k in old(windows) || k == key
      ensures forall k :: k in old(windows) ==> windows[k] == old(windows[k])
      ensures key !in old(windows) ==> fresh(w)
      ensures w.samples == WindowAt(old(View()), key)
    {
      if key in windows {
        w := windows[key];
      } else {
        w := new Window(WINDOW_N);
        windows := windows[key := w];
      }
    }

    method PushSample(sample: Sample) returns (w: Window)
      requires Valid()
      modifies this`windows, windows.Values
      ensures Valid() && fresh(windows.Values - old(windows.Values))
      ensures w in windows.Values && w.capacity == WINDOW_N
      ensures View() == Accept(old(View()), sample, WINDOW_N)
      ensures w.samples == Roll(WindowAt(old(View()), KeyOf(sample)), sample, WINDOW_N)
    {
      w := FindOrCreate(KeyOf(sample));
      w.Push(sample);
    }

    /** A line that does not validate is counted, and the count reported at most every ten seconds. */
    method CountInvalid(nowS: real)
      modifies this`invalid, this`invalidSinceLog, this`lastInvalidLogS
      ensures invalid == old(invalid) + 1
      ensures if nowS - old(lastInvalidLogS) >= 10.0 then lastInvalidLogS == nowS && invalidSinceLog == 0
              else lastInvalidLogS == old(lastInvalidLogS) && invalidSinceLog == old(invalidSinceLog) + 1
    {
      invalid := invalid + 1;
      invalidSinceLog := invalidSinceLog + 1;
      if nowS - lastInvalidLogS >= 10.0 {
        lastInvalidLogS := nowS;
        invalidSinceLog := 0;
      }
    }

    /**
     * One input line: `parsed` is what validation makes of it, `sendOk` whether the downstream
     * peer takes the frame. Returns the frame offered to the peer, if there is one.
     */
    method HandleLine(parsed: Option<Sample>, nowS: real, sendOk: bool) returns (frame: Option<Frame>)
      requires Valid()
      modifies this, windows.Values
      ensures Valid() && fresh(windows.Values - old(windows.Values))
      ensures parsed == None ==>
        View() == old(View()) && frame == None && accepted == old(accepted) && frames == old(frames)
      ensures parsed == None ==> invalid == old(invalid) + 1
      ensures parsed == None ==>
        if nowS - old(lastInvalidLogS) >= 10.0 then lastInvalidLogS == nowS && invalidSinceLog == 0
        else lastInvalidLogS == old(lastInvalidLogS) && invalidSinceLog == old(invalidSinceLog) + 1
      ensures parsed.Some? ==>
        && View() == Accept(old(View()), parsed.value, WINDOW_N)
        && accepted == old(accepted) + 1 && invalid == old(invalid)
        && invalidSinceLog == old(invalidSinceLog) && lastInvalidLogS == old(lastInvalidLogS)
      ensures parsed.Some? ==>
        var w := Roll(WindowAt(old(View()), KeyOf(parsed.value)), parsed.value, WINDOW_N);
        frame == if |w| == WINDOW_N then Some(FrameOf(lib, w)) else None
      ensures parsed.Some? ==> frames == old(frames) + if frame.Some? && sendOk then 1 else 0
    {
      hide FrameOf, Accept, Roll, WindowAt, KeyOf;
      if parsed == None {
        CountInvalid(nowS);
        return None;
      }
      var window := PushSample(parsed.value);
      accepted := accepted + 1;
      if !window.Full() {
        return None;
      }
      var built := window.BuildFrame(lib);
      if sendOk {
        frames := frames + 1;
      }
      return Some(built);
    }

    /**
     * The lines of one connection, one after the other. `before` is what earlier connections
     * brought in: the windows outlive a connection.
     */
    method ServeClient(lines: seq<Line>, ghost before: seq<Sample>) returns (offered: seq<Frame>)
      requires Valid() && View() == Windows(before, WINDOW_N)
      modifies this, windows.Values
      ensures Valid() && fresh(windows.Values - old(windows.Values))
      ensures View() == Windows(before + Parsed(lines), WINDOW_N)
      ensures accepted == old(accepted) + |Parsed(lines)|
      ensures accepted + invalid == old(accepted) + old(invalid) + |lines|
      ensures frames == old(frames) + SentBy(before, lines)
      ensures Continues(lib, Emitted(before, WINDOW_N), offered, Emitted(before + Parsed(lines), WINDOW_N))
    {
      hide Windows, Emitted, Accept, WindowAt, KeyOf, Roll, FrameOf, Parsed, Continues, SentBy;
      offered := [];
      ghost var read := before;
      NoLines(lib, before);
      for i := 0 to |lines|
        invariant Valid() && fresh(windows.Values - old(windows.Values))
        invariant read == before + Parsed(lines[..i]) && View() == Windows(read, WINDOW_N)
        invariant accepted == old(accepted) + |Parsed(lines[..i])|
        invariant accepted + invalid == old(accepted) + old(invalid) + i
        invariant frames == old(frames) + SentBy(before, lines[..i])
        invariant Continues(lib, Emitted(before, WINDOW_N), offered, Emitted(read, WINDOW_N))
      {
        OneMoreLine(lines, i);
        OneMoreSent(before, lines, i);
        var frame := HandleLine(lines[i].parsed, lines[i].nowS, lines[i].sendOk);
        if lines[i].parsed.Some? {
          OneMoreOffer(lib, before, read, offered, lines[i].parsed.value);
          read := read + [lines[i].parsed.value];
        }
        if frame.Some? {
          offered := offered + [frame.value];
        }
      }
      assert lines[..|lines|] == lines;
    }
  }

  /** One input line: what validation makes of it, when it is read, and whether a frame can be sent on. */
  datatype Line = Line(parsed: Option<Sample>, nowS: real, sendOk: bool)

  /** The samples of the valid lines, in order. */
  function Parsed(lines: seq<Line>): seq<Sample> {
    if lines == [] then []
    else
      var before := Parsed(lines[..|lines| - 1]);
      if lines[|lines| - 1].parsed.Some? then before + [lines[|lines| - 1].parsed.value] else before
  }

  /** How many of the lines complete a window whose frame the downstream peer then takes. */
  function SentBy(before: seq<Sample>, lines: seq<Line>): nat {
    if lines == [] then 0
    else
      var front, last := lines[..|lines| - 1], lines[|lines| - 1];
      SentBy(before, front) + if last.sendOk && Completes(before + Parsed(front), last) then 1 else 0
  }

  /** The line is a sample that leaves its window full. */
  predicate Completes(read: seq<Sample>, line: Line) {
    line.parsed.Some? &&
    |Roll(WindowAt(Windows(read, WINDOW_N), KeyOf(line.parsed.value)), line.parsed.value, WINDOW_N)| == WINDOW_N
  }

  lemma OneMoreSent(before: seq<Sample>, lines: seq<Line>, i: nat)
    requires i < |lines|
    ensures SentBy(before, lines[..i + 1])
            == SentBy(before, lines[..i])
               + if lines[i].sendOk && Completes(before + Parsed(lines[..i]), lines[i]) then 1 else 0
  {
    hide Completes, Parsed;
    assert lines[..i + 1][..i] == lines[..i];
  }

  lemma OneMoreLine(lines: seq<Line>, i: nat)
    requires i < |lines|
    ensures Parsed(lines[..i + 1])
            == Parsed(lines[..i]) + if lines[i].parsed.Some? then [lines[i].parsed.value] else []
  {
    assert lines[..i + 1][..i] == lines[..i];
  }

  /** One frame per window, in order. */
  function FramesFrom(lib: Library, windows: seq<seq<Sample>>): seq<Frame> {
    if windows == [] then []
    else
      var w := windows[|windows| - 1];
      FramesFrom(lib, windows[..|windows| - 1]) + if w == [] then [] else [FrameOf(lib, w)]
  }

  lemma {:induction false} FramesFromEach(lib: Library, windows: seq<seq<Sample>>)
    requires forall i :: 0 <= i < |windows| ==> windows[i] != []
    ensures |FramesFrom(lib, windows)| == |windows|
    ensures forall i :: 0 <= i < |windows| ==> FramesFrom(lib, windows)[i] == FrameOf(lib, windows[i])
  {
    hide FrameOf;
    if windows != [] {
      FramesFromEach(lib, windows[..|windows| - 1]);
    }
  }

  /** `frames` are the frames of the windows `later` has beyond `earlier`. */
  ghost predicate Continues(lib: Library, earlier: seq<seq<Sample>>, frames: seq<Frame>, later: seq<seq<Sample>>) {
    earlier <= later && frames == FramesFrom(lib, later[|earlier|..])
  }

  lemma NoLines(lib: Library, before: seq<Sample>)
    ensures Continues(lib, Emitted(before, WINDOW_N), [], Emitted(before, WINDOW_N))
    ensures Parsed([]) == [] && before + Parsed([]) == before && SentBy(before, []) == 0
  {
    hide Emitted;
  }

  lemma OneMoreOffer(lib: Library, before: seq<Sample>, read: seq<Sample>, offered: seq<Frame>, s: Sample)
    requires Continues(lib, Emitted(before, WINDOW_N), offered, Emitted(read, WINDOW_N))
    ensures Windows(read + [s], WINDOW_N) == Accept(Windows(read, WINDOW_N), s, WINDOW_N)
    ensures var w := Roll(WindowAt(Windows(read, WINDOW_N), KeyOf(s)), s, WINDOW_N);
      Continues(lib, Emitted(before, WINDOW_N),
                if |w| == WINDOW_N then offered + [FrameOf(lib, w)] else offered, Emitted(read + [s], WINDOW_N))
  {
    hide Emitted, FrameOf, Roll, KeyOf, Continues;
    assert (read + [s])[..|read|] == read && (read + [s])[|read|] == s;
    EmittedStep(read + [s], WINDOW_N);
    var w := Roll(WindowAt(Windows(read, WINDOW_N), KeyOf(s)), s, WINDOW_N);
    assert WindowAt(Windows(read + [s], WINDOW_N), KeyOf(s)) == w;
    if |w| == WINDOW_N {
      OneMoreFull(lib, Emitted(before, WINDOW_N), offered, Emitted(read, WINDOW_N), w);
    }
  }

  lemma OneMoreFull(lib: Library, earlier: seq<seq<Sample>>, frames: seq<Frame>, later: seq<seq<Sample>>,
                    w: seq<Sample>)
    requires Continues(lib, earlier, frames, later) && w != []
    ensures Continues(lib, earlier, frames + [FrameOf(lib, w)], later + [w])
  {
    hide FrameOf;
    var beyond, longer := later[|earlier|..], later + [w];
    assert longer[|earlier|..] == beyond + [w];
    assert (beyond + [w])[..|beyond|] == beyond;
  }

  // ------------------------------------------------------------------ runs over values

  function Windows(stream: seq<Sample>, capacity: nat): map<string, seq<Sample>> {
    if stream == [] then map[]
    else Accept(Windows(stream[..|stream| - 1], capacity), stream[|stream| - 1], capacity)
  }

  /** The full windows emitted while reading the stream, in order of emission. */
  function Emitted(stream: seq<Sample>, capacity: nat): seq<seq<Sample>> {
    if stream == [] then []
    else
      var before := Emitted(stream[..|stream| - 1], capacity);
      var s := stream[|stream| - 1];
      var w := WindowAt(Windows(stream, capacity), KeyOf(s));
      if |w| == capacity then before + [w] else before
  }

  predicate SameSource(s: Sample, linkId: string, channelId: string) {
    s.linkId == linkId && s.channelId == channelId
  }

  /** The samples of one link and channel. */
  function Only(stream: seq<Sample>, linkId: string, channelId: string): seq<Sample> {
    Filter(stream, (s: Sample) => SameSource(s, linkId, channelId))
  }

  /** The emitted windows whose newest sample belongs to one link and channel. */
  function EmittedFor(windows: seq<seq<Sample>>, linkId: string, channelId: string): seq<seq<Sample>> {
    Filter(windows, (w: seq<Sample>) => w != [] && SameSource(w[|w| - 1], linkId, channelId))
  }

  /** All windows of `n` consecutive elements, oldest first. */
  function Sliding<T>(s: seq<T>, n: nat): (r: seq<seq<T>>)
    ensures |r| == Max(0, |s| - n + 1)
    ensures forall i :: 0 <= i < |r| ==> r[i] == s[i..i + n]
  {
    seq(Max(0, |s| - n + 1), i requires 0 <= i < Max(0, |s| - n + 1) => s[i..i + n])
  }

  function Newest<T>(s: seq<T>, n: nat): seq<T> {
    if |s| > n then s[|s| - n..] else s
  }

  // ------------------------------------------------------------------ keys

  /** No other source of the stream shares the bucket of this link and channel. */
  ghost predicate OwnsKey(stream: seq<Sample>, linkId: string, channelId: string) {
    forall i :: 0 <= i < |stream| && KeyOf(stream[i]) == WindowKey(linkId, channelId) ==>
      SameSource(stream[i], linkId, channelId)
  }

  lemma KeyPrefix(a: string, ca: string, b: string, cb: string)
    requires WindowKey(a, ca) == WindowKey(b, cb) && |a| < |b|
    ensures a + "|" <= b
  {
    var k := WindowKey(a, ca);
    assert b == k[..|b|];
    assert a + "|" == k[..|a| + 1];
    assert k[..|a| + 1] == k[..|b|][..|a| + 1];
  }

  /** Two links can be confused exactly when one is the other followed by a bar and anything. */
  lemma LinksCollideIff(a: string, b: string)
    requires a != b
    ensures (exists ca, cb :: ca != "" && cb != "" && WindowKey(a, ca) == WindowKey(b, cb))
            <==> a + "|" <= b || b + "|" <= a
  {
    if a + "|" <= b {
      ExtendKey(a, b);
    }
    if b + "|" <= a {
      ExtendKey(b, a);
    }
    if ca, cb :| ca != "" && cb != "" && WindowKey(a, ca) == WindowKey(b, cb) {
      if |a| < |b| {
        KeyPrefix(a, ca, b, cb);
      } else if |b| < |a| {
        KeyPrefix(b, cb, a, ca);
      } else {
        SplitKey(a, ca, b, cb);
        assert false;
      }
    }
  }

  lemma SplitKey(a: string, ca: string, b: string, cb: string)
    requires WindowKey(a, ca) == WindowKey(b, cb) && |a| == |b|
    ensures a == b && ca == cb
  {
    var k := WindowKey(a, ca);
    assert a == k[..|a|] && b == k[..|b|];
    assert ca == k[|a| + 1..] && cb == k[|b| + 1..];
  }

  lemma BarInside(a: string, b: string)
    requires a + "|" <= b
    ensures '|' in b
  {
    assert b[|a|] == '|';
  }

  lemma ExtendKey(a: string, b: string)
    requires a + "|" <= b
    ensures WindowKey(a, b[|a| + 1..] + "|C1") == WindowKey(b, "C1")
  {
    assert b == a + "|" + b[|a| + 1..];
  }

  /** A link id is safe in a stream when neither it nor any other link of the stream extends the other past a bar. */
  ghost predicate Unconfusable(stream: seq<Sample>, linkId: string) {
    forall i :: 0 <= i < |stream| ==>
      !(linkId + "|" <= stream[i].linkId) && !(stream[i].linkId + "|" <= linkId)
  }

  lemma UnconfusableOwnsKey(stream: seq<Sample>, linkId: string, channelId: string)
    requires Unconfusable(stream, linkId)
    ensures OwnsKey(stream, linkId, channelId)
  {
    forall i | 0 <= i < |stream| && KeyOf(stream[i]) == WindowKey(linkId, channelId)
      ensures SameSource(stream[i], linkId, channelId)
    {
      var s := stream[i];
      if |s.linkId| < |linkId| {
        KeyPrefix(s.linkId, s.channelId, linkId, channelId);
        assert false;
      } else if |linkId| < |s.linkId| {
        KeyPrefix(linkId, channelId, s.linkId, s.channelId);
        assert false;
      } else {
        SplitKey(s.linkId, s.channelId, linkId, channelId);
      }
    }
  }

  /** Link ids free of the bar, as the shipped topology uses, are never confused. */
  lemma PlainLinksUnconfusable(stream: seq<Sample>, linkId: string)
    requires '|' !in linkId && forall i :: 0 <= i < |stream| ==> '|' !in stream[i].linkId
    ensures Unconfusable(stream, linkId)
  {
    forall i | 0 <= i < |stream|
      ensures !(linkId + "|" <= stream[i].linkId) && !(stream[i].linkId + "|" <= linkId)
    {
      if linkId + "|" <= stream[i].linkId {
        BarInside(linkId, stream[i].linkId);
      }
      if stream[i].linkId + "|" <= linkId {
        BarInside(stream[i].linkId, linkId);
      }
    }
  }

  // ------------------------------------------------------------------ one key of the stream

  lemma SlidingSnoc<T>(s: seq<T>, x: T, n: nat)
    requires n >= 1
    ensures Sliding(s + [x], n) == if |s| + 1 >= n then Sliding(s, n) + [Newest(s + [x], n)] else Sliding(s, n)
  {
    var longer := s + [x];
    if |longer| >= n {
      forall i | 0 <= i < |Sliding(longer, n)|
        ensures Sliding(longer, n)[i] == (Sliding(s, n) + [Newest(longer, n)])[i]
      {
        if i < |Sliding(s, n)| {
          assert longer[i..i + n] == s[i..i + n];
        } else {
          assert i == |longer| - n;
        }
      }
    }
  }

  lemma OwnsKeyFront(stream: seq<Sample>, l: string, c: string)
    requires stream != [] && OwnsKey(stream, l, c)
    ensures OwnsKey(stream[..|stream| - 1], l, c)
  {
  }

  lemma RollNewest(own: seq<Sample>, s: Sample, capacity: nat)
    ensures Roll(Newest(own, capacity), s, capacity) == Newest(own + [s], capacity)
  {
  }

  /** A bucket no other source shares holds exactly the newest samples of its source. */
  lemma {:induction false} WindowHoldsNewest(stream: seq<Sample>, capacity: nat, l: string, c: string)
    requires OwnsKey(stream, l, c)
    ensures WindowAt(Windows(stream, capacity), WindowKey(l, c)) == Newest(Only(stream, l, c), capacity)
  {
    hide Roll, Newest, WindowKey;
    if stream != [] {
      var front, s := stream[..|stream| - 1], stream[|stream| - 1];
      OwnsKeyFront(stream, l, c);
      WindowHoldsNewest(front, capacity, l, c);
      RollNewest(Only(front, l, c), s, capacity);
    } else {
      NewestOfNothing(capacity);
    }
  }

  lemma NewestOfNothing(capacity: nat)
    ensures Newest<Sample>([], capacity) == []
  {
  }

  /**
   * For every interleaving of sources, the windows emitted for one link and channel are exactly
   * the sliding windows over that source's own samples, in order.
   */
  lemma {:induction false} StreamSlides(stream: seq<Sample>, capacity: nat, l: string, c: string)
    requires capacity >= 1 && OwnsKey(stream, l, c)
    ensures EmittedFor(Emitted(stream, capacity), l, c) == Sliding(Only(stream, l, c), capacity)
  {
    hide Newest, Sliding, WindowKey, Windows, WindowAt, OwnsKey, Only, EmittedFor, Emitted;
    if stream == [] {
      NothingSlides<Sample>(capacity);
      NothingEmitted(capacity, l, c);
    } else {
      var front, s := stream[..|stream| - 1], stream[|stream| - 1];
      OwnsKeyFront(stream, l, c);
      StreamSlides(front, capacity, l, c);
      NewestLast(stream, capacity);
      var w := WindowAt(Windows(stream, capacity), KeyOf(s));
      EmittedStep(stream, capacity);
      OneMoreWindow(Emitted(front, capacity), w, l, c);
      OneMoreSample(front, s, l, c);
      assert front + [s] == stream;
      if SameSource(s, l, c) {
        WindowHoldsNewest(stream, capacity, l, c);
        SlidingSnoc(Only(front, l, c), s, capacity);
        NewestLength(Only(stream, l, c), capacity);
      }
    }
  }

  /** At the shipped length a source with its own bucket gets its first window at its 60th sample, then one each. */
  lemma FirstWindowAtSixty(stream: seq<Sample>, l: string, c: string)
    requires OwnsKey(stream, l, c)
    ensures |EmittedFor(Emitted(stream, WINDOW_N), l, c)| == Max(0, |Only(stream, l, c)| - 59)
  {
    StreamSlides(stream, WINDOW_N, l, c);
  }

  lemma NothingEmitted(capacity: nat, l: string, c: string)
    ensures EmittedFor(Emitted([], capacity), l, c) == [] && Only([], l, c) == []
  {
  }

  lemma EmittedStep(stream: seq<Sample>, capacity: nat)
    requires stream != []
    ensures var w := WindowAt(Windows(stream, capacity), KeyOf(stream[|stream| - 1]));
      Emitted(stream, capacity)
      == if |w| == capacity then Emitted(stream[..|stream| - 1], capacity) + [w]
         else Emitted(stream[..|stream| - 1], capacity)
  {
  }

  lemma OneMoreSample(stream: seq<Sample>, s: Sample, l: string, c: string)
    ensures Only(stream + [s], l, c) == if SameSource(s, l, c) then Only(stream, l, c) + [s] else Only(stream, l, c)
  {
    FilterSnoc(stream, s, (x: Sample) => SameSource(x, l, c));
  }

  lemma OneMoreWindow(windows: seq<seq<Sample>>, w: seq<Sample>, l: string, c: string)
    requires w != []
    ensures EmittedFor(windows + [w], l, c)
            == if SameSource(w[|w| - 1], l, c) then EmittedFor(windows, l, c) + [w] else EmittedFor(windows, l, c)
  {
    FilterSnoc(windows, w, (v: seq<Sample>) => v != [] && SameSource(v[|v| - 1], l, c));
  }

  lemma NewestLength<T>(s: seq<T>, n: nat)
    ensures |Newest(s, n)| == Min(|s|, n)
  {
  }

  lemma NothingSlides<T>(n: nat)
    requires n >= 1
    ensures Sliding<T>([], n) == []
  {
  }

  /** The bucket just pushed to ends with the sample just read. */
  lemma NewestLast(stream: seq<Sample>, capacity: nat)
    requires capacity >= 1 && stream != []
    ensures var w := WindowAt(Windows(stream, capacity), KeyOf(stream[|stream| - 1]));
      w != [] && w[|w| - 1] == stream[|stream| - 1]
  {
  }

  // ------------------------------------------------------------------ when stream and sliding windows agree

  function Copies(a: Sample, m: nat): (r: seq<Sample>)
    ensures |r| == m && forall i :: 0 <= i < m ==> r[i] == a
  {
    seq(m, i requires 0 <= i < m => a)
  }

  lemma CopiesFront(a: Sample, m: nat)
    requires m > 0
    ensures Copies(a, m)[..m - 1] == Copies(a, m - 1) && Copies(a, m - 1) + [a] == Copies(a, m)
  {
  }

  lemma {:induction false} CopiesFill(a: Sample, m: nat, n: nat)
    requires m < n
    ensures Windows(Copies(a, m), n) == if m == 0 then map[] else map[KeyOf(a) := Copies(a, m)]
  {
    hide KeyOf, Copies;
    if m > 0 {
      CopiesFill(a, m - 1, n);
      CopiesFront(a, m);
    }
  }

  lemma {:induction false} CopiesEmitNothing(a: Sample, m: nat, n: nat)
    requires m < n
    ensures Emitted(Copies(a, m), n) == []
  {
    hide KeyOf, Copies, Windows, Emitted;
    if m > 0 {
      CopiesEmitNothing(a, m - 1, n);
      CopiesFront(a, m);
      CopiesFill(a, m, n);
      EmittedStep(Copies(a, m), n);
    } else {
      NothingRead(a, n);
    }
  }

  lemma NothingRead(a: Sample, n: nat)
    ensures Copies(a, 0) == [] && Emitted([], n) == []
  {
  }

  lemma {:induction false} CopiesAreNot(a: Sample, m: nat, l: string, c: string)
    requires !SameSource(a, l, c)
    ensures Only(Copies(a, m), l, c) == []
  {
    if m > 0 {
      CopiesAreNot(a, m - 1, l, c);
      assert Copies(a, m)[..m - 1] == Copies(a, m - 1);
    }
  }

  /**
   * When two sources share a bucket, n - 1 samples of one followed by a sample of the other make the
   * other's first window, n - 1 samples too early and of the wrong source.
   */
  lemma SharedBucketMixesSources(a: Sample, b: Sample, n: nat)
    requires n >= 2 && KeyOf(a) == KeyOf(b) && !SameSource(a, b.linkId, b.channelId)
    ensures var stream := Copies(a, n - 1) + [b];
      && EmittedFor(Emitted(stream, n), b.linkId, b.channelId) == [stream]
      && Sliding(Only(stream, b.linkId, b.channelId), n) == []
  {
    hide KeyOf, Only, EmittedFor;
    var front := Copies(a, n - 1);
    var stream := front + [b];
    assert stream[..n - 1] == front;
    CopiesFill(a, n - 1, n);
    CopiesEmitNothing(a, n - 1, n);
    assert WindowAt(Windows(stream, n), KeyOf(b)) == stream;
    assert Emitted(stream, n) == [] + [stream];
    OneMoreWindow([], stream, b.linkId, b.channelId);
    NothingEmitted(n, b.linkId, b.channelId);
    CopiesAreNot(a, n - 1, b.linkId, b.channelId);
    OneMoreSample(front, b, b.linkId, b.channelId);
  }

  /** Accepted samples of the given links; the ingest process leaves no channel id empty. */
  ghost predicate Over(stream: seq<Sample>, links: set<string>) {
    forall s :: s in stream ==> s.linkId in links && s.channelId != ""
  }

  /** Whatever those links send, every source gets the sliding windows over its own samples. */
  ghost predicate AllSlide(links: set<string>, n: nat) {
    forall stream, l, c :: Over(stream, links) && l in links && c != "" ==>
      EmittedFor(Emitted(stream, n), l, c) == Sliding(Only(stream, l, c), n)
  }

  ghost predicate NoneExtends(links: set<string>) {
    forall a, b :: a in links && b in links ==> !(a + "|" <= b)
  }

  /**
   * For a set of links and any window length from two on, the stream gives every source its own
   * sliding windows, for every stream over those links, exactly when no link id extends another past a bar.
   */
  lemma AllSlideIff(links: set<string>, n: nat)
    requires n >= 2
    ensures AllSlide(links, n) <==> NoneExtends(links)
  {
    hide Emitted, EmittedFor, Only, Sliding;
    if NoneExtends(links) {
      forall stream, l, c | Over(stream, links) && l in links && c != ""
        ensures EmittedFor(Emitted(stream, n), l, c) == Sliding(Only(stream, l, c), n)
      {
        UnconfusableOwnsKey(stream, l, c);
        StreamSlides(stream, n, l, c);
      }
    }
    if x, y :| x in links && y in links && x + "|" <= y {
      ExtensionMixes(links, n, x, y);
    }
  }

  lemma ExtensionMixes(links: set<string>, n: nat, x: string, y: string)
    requires n >= 2 && x in links && y in links && x + "|" <= y
    ensures !AllSlide(links, n)
  {
    hide Emitted, EmittedFor, Only, Sliding, WindowKey;
    ExtendKey(x, y);
    var c := y[|x| + 1..] + "|C1";
    assert c != "";
    var a, b := Sample(0, x, c, 0.0, 0.0, 0.0, 0.0, 0.0), Sample(0, y, "C1", 0.0, 0.0, 0.0, 0.0, 0.0);
    var stream := Copies(a, n - 1) + [b];
    assert |x| < |y|;
    SharedBucketMixesSources(a, b, n);
    assert Over(stream, links);
  }

  // ------------------------------------------------------------------ the Python stream of one key

  /** One frame for each window given, up to the first one the reference cannot convert. */
  function FramesOf(lib: Library, windows: seq<seq<Raw>>): (frames: seq<Frame>)
    ensures |frames| <= |windows|
  {
    if windows == [] then []
    else
      var before, w := FramesOf(lib, windows[..|windows| - 1]), windows[|windows| - 1];
      var frame := MakeFrame(lib, w, |w|);
      if |before| == |windows| - 1 && frame.Some? then before + [frame.value] else before
  }

  lemma FramesOfSnoc(lib: Library, windows: seq<seq<Raw>>, w: seq<Raw>)
    ensures var frame := MakeFrame(lib, w, |w|);
      FramesOf(lib, windows + [w])
      == if |FramesOf(lib, windows)| == |windows| && frame.Some? then FramesOf(lib, windows) + [frame.value]
         else FramesOf(lib, windows)
  {
    assert (windows + [w])[..|windows|] == windows;
  }

  /** Nothing comes after an error. */
  lemma {:induction false} FramesStop(lib: Library, windows: seq<seq<Raw>>, more: seq<seq<Raw>>)
    requires |FramesOf(lib, windows)| < |windows|
    ensures FramesOf(lib, windows + more) == FramesOf(lib, windows)
  {
    hide FramesOf, MakeFrame;
    if more == [] {
      assert windows + more == windows;
    } else {
      var front, w := more[..|more| - 1], more[|more| - 1];
      FramesStop(lib, windows, front);
      FramesOfSnoc(lib, windows + front, w);
      assert windows + more == windows + front + [w];
    }
  }

  lemma SlidingPrefix<T>(s: seq<T>, i: nat, n: nat)
    requires n >= 1 && i <= |s|
    ensures Sliding(s[..i], n) <= Sliding(s, n)
  {
    forall k | 0 <= k < |Sliding(s[..i], n)|
      ensures Sliding(s[..i], n)[k] == Sliding(s, n)[k]
    {
      assert s[..i][k..k + n] == s[k..k + n];
    }
  }

  /**
   * The generator over the samples of one key, keeping a list of the latest ones. It stops with an
   * error at the first window holding a value that cannot be converted.
   */
  method IterFrames(lib: Library, raws: seq<Raw>, windowN: nat) returns (frames: seq<Frame>, raised: bool)
    requires windowN >= 1
    ensures frames == FramesOf(lib, Sliding(raws, windowN))
    ensures raised <==> |frames| < |Sliding(raws, windowN)|
  {
    hide MakeFrame, FramesOf, Sliding, Newest;
    var buffer: seq<Raw> := [];
    frames := [];
    NoFrames(lib, windowN);
    NewestOfNone(windowN);
    for i := 0 to |raws|
      invariant buffer == Newest(raws[..i], windowN)
      invariant frames == FramesOf(lib, Sliding(raws[..i], windowN)) && |frames| == |Sliding(raws[..i], windowN)|
    {
      assert raws[..i + 1] == raws[..i] + [raws[i]];
      SlidingSnoc(raws[..i], raws[i], windowN);
      FramesOfSnoc(lib, Sliding(raws[..i], windowN), Newest(raws[..i + 1], windowN));
      NewestSnoc(raws[..i], raws[i], windowN);
      buffer := buffer + [raws[i]];
      if |buffer| > windowN {
        buffer := buffer[1..];
      }
      if |buffer| == windowN {
        var frame := MakeFrame(lib, buffer, windowN);
        if frame == None {
          var sofar, all := Sliding(raws[..i + 1], windowN), Sliding(raws, windowN);
          SlidingPrefix(raws, i + 1, windowN);
          FramesStop(lib, sofar, all[|sofar|..]);
          assert all == sofar + all[|sofar|..];
          return frames, true;
        }
        frames := frames + [frame.value];
      }
    }
    assert raws[..|raws|] == raws;
    return frames, false;
  }

  lemma NewestSnoc<T>(s: seq<T>, x: T, n: nat)
    requires n >= 1
    ensures |Newest(s + [x], n)| == Min(|s| + 1, n) && |Newest(s, n)| == Min(|s|, n)
    ensures var longer := Newest(s, n) + [x];
      Newest(s + [x], n) == if |longer| > n then longer[1..] else longer
  {
  }

  lemma NewestOfNone(n: nat)
    ensures Newest<Raw>([], n) == []
  {
  }

  lemma NoFrames(lib: Library, windowN: nat)
    requires windowN >= 1
    ensures Sliding<Raw>([], windowN) == [] && FramesOf(lib, []) == []
  {
  }
}
