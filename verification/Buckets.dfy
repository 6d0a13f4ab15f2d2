/** What the stream does to one source when its bucket is shared: exactly when it still gets its own windows. */
module Buckets {
  import opened Basics
  import opened Telemetry
  import opened Ingest

  // ------------------------------------------------------------------ one bucket

  /** The samples that fall into one bucket, of whatever source. */
  function Bucket(stream: seq<Sample>, key: string): seq<Sample> {
    Filter(stream, (s: Sample) => KeyOf(s) == key)
  }

  lemma BucketSnoc(stream: seq<Sample>, s: Sample, key: string)
    ensures Bucket(stream + [s], key) == if KeyOf(s) == key then Bucket(stream, key) + [s] else Bucket(stream, key)
  {
    FilterSnoc(stream, s, (x: Sample) => KeyOf(x) == key);
  }

  lemma NothingInBucket(key: string, n: nat)
    ensures Bucket([], key) == [] && Newest<Sample>([], n) == []
  {
  }

  /** A bucket holds its newest samples. */
  lemma {:induction false} WindowIsNewest(stream: seq<Sample>, n: nat, key: string)
    ensures WindowAt(Windows(stream, n), key) == Newest(Bucket(stream, key), n)
  {
    hide Roll, Newest, KeyOf, Bucket;
    if stream == [] {
      NothingInBucket(key, n);
    } else {
      var front, s := stream[..|stream| - 1], stream[|stream| - 1];
      WindowIsNewest(front, n, key);
      assert stream == front + [s];
      BucketSnoc(front, s, key);
      RollNewest(Bucket(front, key), s, n);
    }
  }

  lemma SourceInBucket(s: Sample, l: string, c: string)
    ensures SameSource(s, l, c) ==> KeyOf(s) == WindowKey(l, c)
  {
  }

  lemma {:induction false} OwnInBucket(stream: seq<Sample>, l: string, c: string)
    ensures Only(stream, l, c) == Only(Bucket(stream, WindowKey(l, c)), l, c)
  {
    hide Only, Bucket, WindowKey, KeyOf;
    if stream == [] {
      NothingInBucket(WindowKey(l, c), 1);
    } else {
      var front, s := stream[..|stream| - 1], stream[|stream| - 1];
      OwnInBucket(front, l, c);
      assert stream == front + [s];
      BucketSnoc(front, s, WindowKey(l, c));
      SourceInBucket(s, l, c);
      OneMoreSample(front, s, l, c);
      OneMoreSample(Bucket(front, WindowKey(l, c)), s, l, c);
    }
  }

  /** The windows the bucket gives a source: those whose newest sample is its own. */
  function Given(bucket: seq<Sample>, n: nat, l: string, c: string): seq<seq<Sample>> {
    EmittedFor(Sliding(bucket, n), l, c)
  }

  lemma NothingGiven(n: nat, l: string, c: string)
    requires n >= 1
    ensures Given([], n, l, c) == [] && EmittedFor([], l, c) == [] && Only([], l, c) == []
  {
  }

  lemma GivenSnoc(bucket: seq<Sample>, s: Sample, n: nat, l: string, c: string)
    requires n >= 1
    ensures Given(bucket + [s], n, l, c)
            == if |bucket| + 1 >= n && SameSource(s, l, c) then Given(bucket, n, l, c) + [Newest(bucket + [s], n)]
               else Given(bucket, n, l, c)
  {
    hide EmittedFor;
    SlidingSnoc(bucket, s, n);
    NewestEnds(bucket, s, n);
    OneMoreWindow(Sliding(bucket, n), Newest(bucket + [s], n), l, c);
  }

  lemma NewestEnds<T>(s: seq<T>, x: T, n: nat)
    requires n >= 1
    ensures var w := Newest(s + [x], n);
      w != [] && w[|w| - 1] == x && |w| == Min(|s| + 1, n)
  {
  }

  /** What the stream emits for a source is decided by its bucket alone. */
  lemma {:induction false} EmittedIsGiven(stream: seq<Sample>, n: nat, l: string, c: string)
    requires n >= 1
    ensures EmittedFor(Emitted(stream, n), l, c) == Given(Bucket(stream, WindowKey(l, c)), n, l, c)
  {
    hide Emitted, EmittedFor, Bucket, Windows, WindowAt, KeyOf, WindowKey, Newest, Given;
    if stream == [] {
      NothingInBucket(WindowKey(l, c), n);
      NothingEmitted(n, l, c);
      NothingGiven(n, l, c);
    } else {
      var front, s := stream[..|stream| - 1], stream[|stream| - 1];
      var key := WindowKey(l, c);
      EmittedIsGiven(front, n, l, c);
      assert stream == front + [s];
      EmittedStep(stream, n);
      var w := WindowAt(Windows(stream, n), KeyOf(s));
      NewestLast(stream, n);
      OneMoreWindow(Emitted(front, n), w, l, c);
      BucketSnoc(front, s, key);
      SourceInBucket(s, l, c);
      if KeyOf(s) == key {
        WindowIsNewest(stream, n, key);
        NewestEnds(Bucket(front, key), s, n);
        GivenSnoc(Bucket(front, key), s, n, l, c);
      }
    }
  }

  // ------------------------------------------------------------------ when the windows are its own

  ghost predicate Pure(w: seq<Sample>, l: string, c: string) {
    forall s :: s in w ==> SameSource(s, l, c)
  }

  /** As many windows as the source should get, and none with a sample of another source. */
  ghost predicate Unmixed(bucket: seq<Sample>, n: nat, l: string, c: string) {
    && |Given(bucket, n, l, c)| == Max(0, |Only(bucket, l, c)| - n + 1)
    && forall w :: w in Given(bucket, n, l, c) ==> Pure(w, l, c)
  }

  /**
   * Windows of one sample cannot mix. Otherwise either the source is too short for a window and none
   * of its samples comes late enough to complete one, or no sample of another source comes before one
   * of its own.
   */
  ghost predicate Undisturbed(bucket: seq<Sample>, n: nat, l: string, c: string) {
    || n == 1
    || (|Only(bucket, l, c)| < n && forall i :: 0 <= i < |bucket| && i >= n - 1 ==> !SameSource(bucket[i], l, c))
    || OwnFirst(bucket, l, c)
  }

  ghost predicate OwnFirst(bucket: seq<Sample>, l: string, c: string) {
    forall i, j :: 0 <= i < j < |bucket| && SameSource(bucket[j], l, c) ==> SameSource(bucket[i], l, c)
  }

  lemma {:induction false} OnlyConcat(a: seq<Sample>, b: seq<Sample>, l: string, c: string)
    ensures Only(a + b, l, c) == Only(a, l, c) + Only(b, l, c)
  {
    hide Only;
    if b == [] {
      assert a + b == a;
      NothingGiven(1, l, c);
    } else {
      var front, s := b[..|b| - 1], b[|b| - 1];
      OnlyConcat(a, front, l, c);
      OneMoreSample(a + front, s, l, c);
      OneMoreSample(front, s, l, c);
      assert a + b == a + front + [s] && b == front + [s];
    }
  }

  lemma {:induction false} OnlyLength(b: seq<Sample>, l: string, c: string)
    ensures |Only(b, l, c)| <= |b|
    ensures |Only(b, l, c)| == |b| <==> Pure(b, l, c)
    ensures Pure(b, l, c) ==> Only(b, l, c) == b
  {
    hide Only;
    if b == [] {
      NothingGiven(1, l, c);
    } else {
      var front, s := b[..|b| - 1], b[|b| - 1];
      assert b == front + [s];
      OnlyLength(front, l, c);
      OneMoreSample(front, s, l, c);
      assert Pure(b, l, c) <==> Pure(front, l, c) && SameSource(s, l, c);
    }
  }

  /** A window without foreign samples is the newest window of the source itself. */
  lemma PureNewest(bucket: seq<Sample>, n: nat, l: string, c: string)
    requires |bucket| >= n && Pure(Newest(bucket, n), l, c)
    ensures |Only(bucket, l, c)| >= n && Newest(Only(bucket, l, c), n) == Newest(bucket, n)
  {
    hide Only;
    var k := |bucket| - n;
    assert bucket == bucket[..k] + bucket[k..];
    OnlyConcat(bucket[..k], bucket[k..], l, c);
    assert Newest(bucket, n) == bucket[k..];
    OnlyLength(bucket[k..], l, c);
  }

  lemma UnmixedSnoc(bucket: seq<Sample>, s: Sample, n: nat, l: string, c: string)
    requires n >= 1
    ensures !SameSource(s, l, c) ==> (Unmixed(bucket + [s], n, l, c) <==> Unmixed(bucket, n, l, c))
    ensures SameSource(s, l, c) ==>
      (Unmixed(bucket + [s], n, l, c) <==>
        if |bucket| + 1 < n then Unmixed(bucket, n, l, c)
        else |Only(bucket, l, c)| + 1 >= n && Unmixed(bucket, n, l, c) && Pure(Newest(bucket + [s], n), l, c))
  {
    hide Only, Given, Pure, Newest;
    OneMoreSample(bucket, s, l, c);
    GivenSnoc(bucket, s, n, l, c);
    OnlyLength(bucket, l, c);
    var before, w := Given(bucket, n, l, c), Newest(bucket + [s], n);
    assert forall x :: x in before + [w] <==> x in before || x == w;
  }

  /** If nothing is mixed, the source gets exactly the sliding windows over its own samples. */
  lemma {:induction false} UnmixedSlides(bucket: seq<Sample>, n: nat, l: string, c: string)
    requires n >= 1 && Unmixed(bucket, n, l, c)
    ensures Given(bucket, n, l, c) == Sliding(Only(bucket, l, c), n)
  {
    hide Only, Given, Unmixed, Pure, Newest, Sliding;
    if bucket == [] {
      NothingGiven(n, l, c);
      NothingSlides<Sample>(n);
    } else {
      var front, s := bucket[..|bucket| - 1], bucket[|bucket| - 1];
      assert bucket == front + [s];
      UnmixedSnoc(front, s, n, l, c);
      UnmixedSlides(front, n, l, c);
      OneMoreSample(front, s, l, c);
      GivenSnoc(front, s, n, l, c);
      SlidingSnoc(Only(front, l, c), s, n);
      OnlyLength(front, l, c);
      if SameSource(s, l, c) && |bucket| >= n {
        PureNewest(bucket, n, l, c);
      }
    }
  }

  lemma UndisturbedSnoc(bucket: seq<Sample>, s: Sample, n: nat, l: string, c: string)
    requires n >= 2
    ensures !SameSource(s, l, c) ==> (Undisturbed(bucket + [s], n, l, c) <==> Undisturbed(bucket, n, l, c))
    ensures SameSource(s, l, c) ==>
      (Undisturbed(bucket + [s], n, l, c) <==> |bucket| + 1 < n || Pure(bucket, l, c))
  {
    hide Only;
    OneMoreSample(bucket, s, l, c);
    OnlyLength(bucket, l, c);
    var more := bucket + [s];
    assert more[|bucket|] == s && forall i :: 0 <= i < |bucket| ==> more[i] == bucket[i];
    OwnFirstSnoc(bucket, s, l, c);
    if SameSource(s, l, c) && |bucket| + 1 >= n {
      assert !(forall i :: 0 <= i < |more| && i >= n - 1 ==> !SameSource(more[i], l, c));
    }
  }

  lemma OwnFirstSnoc(bucket: seq<Sample>, s: Sample, l: string, c: string)
    ensures OwnFirst(bucket + [s], l, c) <==> if SameSource(s, l, c) then Pure(bucket, l, c) else OwnFirst(bucket, l, c)
  {
    var more := bucket + [s];
    assert more[|bucket|] == s && forall i :: 0 <= i < |bucket| ==> more[i] == bucket[i];
    assert Pure(bucket, l, c) <==> forall i :: 0 <= i < |bucket| ==> SameSource(bucket[i], l, c);
  }

  /** A source that completes a pure window from an undisturbed bucket has the bucket to itself. */
  lemma PureOfUndisturbed(bucket: seq<Sample>, s: Sample, n: nat, l: string, c: string)
    requires n >= 2 && |bucket| + 1 >= n && |Only(bucket, l, c)| + 1 >= n && SameSource(s, l, c)
    ensures Undisturbed(bucket, n, l, c) && Pure(Newest(bucket + [s], n), l, c) <==> Pure(bucket, l, c)
  {
    hide Only;
    OnlyLength(bucket, l, c);
    var more := bucket + [s];
    if Pure(Newest(more, n), l, c) && Undisturbed(bucket, n, l, c) {
      assert Newest(more, n)[n - 2] == bucket[|bucket| - 1];
      assert SameSource(bucket[|bucket| - 1], l, c);
      if !OwnFirst(bucket, l, c) {
        assert |bucket| - 1 < n - 1;
      }
    }
    if Pure(bucket, l, c) {
      assert forall x :: x in more ==> SameSource(x, l, c);
      NewestInside(more, n);
    }
  }

  lemma NewestInside<T>(s: seq<T>, n: nat)
    ensures forall x :: x in Newest(s, n) ==> x in s
  {
  }

  lemma {:induction false} UnmixedIff(bucket: seq<Sample>, n: nat, l: string, c: string)
    requires n >= 2
    ensures Unmixed(bucket, n, l, c) <==> Undisturbed(bucket, n, l, c)
  {
    hide Only, Given, Unmixed, Undisturbed, Pure, Newest;
    if bucket == [] {
      NothingMixed(n, l, c);
    } else {
      var front, s := bucket[..|bucket| - 1], bucket[|bucket| - 1];
      assert bucket == front + [s];
      UnmixedIff(front, n, l, c);
      UnmixedSnoc(front, s, n, l, c);
      UndisturbedSnoc(front, s, n, l, c);
      OnlyLength(front, l, c);
      if SameSource(s, l, c) {
        if |bucket| < n {
          ShortUndisturbed(front, n, l, c);
        } else if |Only(front, l, c)| + 1 >= n {
          PureOfUndisturbed(front, s, n, l, c);
        }
      }
    }
  }

  lemma NothingMixed(n: nat, l: string, c: string)
    requires n >= 1
    ensures Unmixed([], n, l, c) && Undisturbed([], n, l, c)
  {
    NothingGiven(n, l, c);
  }

  lemma ShortUndisturbed(bucket: seq<Sample>, n: nat, l: string, c: string)
    requires |bucket| + 1 < n
    ensures Undisturbed(bucket, n, l, c)
  {
    OnlyLength(bucket, l, c);
  }

  lemma {:induction false} SinglesUnmixed(bucket: seq<Sample>, l: string, c: string)
    ensures Unmixed(bucket, 1, l, c)
  {
    hide Only, Given, Unmixed, Pure, Newest;
    if bucket == [] {
      NothingMixed(1, l, c);
    } else {
      var front, s := bucket[..|bucket| - 1], bucket[|bucket| - 1];
      assert bucket == front + [s];
      SinglesUnmixed(front, l, c);
      UnmixedSnoc(front, s, 1, l, c);
      SingleNewest(front, s, l, c);
    }
  }

  lemma SingleNewest(bucket: seq<Sample>, s: Sample, l: string, c: string)
    ensures SameSource(s, l, c) ==> Pure(Newest(bucket + [s], 1), l, c)
  {
    assert Newest(bucket + [s], 1) == [s];
  }

  /** The windows over a source's own samples are of one source. */
  lemma SlidingPure(own: seq<Sample>, n: nat, l: string, c: string)
    requires Pure(own, l, c)
    ensures forall w :: w in Sliding(own, n) ==> Pure(w, l, c)
  {
  }

  lemma OnlyPure(stream: seq<Sample>, l: string, c: string)
    ensures Pure(Only(stream, l, c), l, c)
  {
    forall s
      ensures s in Only(stream, l, c) ==> SameSource(s, l, c)
    {
      FilterMember(stream, (x: Sample) => SameSource(x, l, c), s);
    }
  }

  /**
   * For every stream and source, shared bucket or not: as many windows as it should get and all of its
   * own samples, or the very sliding windows over its own samples, is what the source gets exactly
   * when its bucket leaves it undisturbed.
   */
  lemma StreamSlidesIff(stream: seq<Sample>, n: nat, l: string, c: string)
    requires n >= 1
    ensures var emitted, own := EmittedFor(Emitted(stream, n), l, c), Only(stream, l, c);
      var alone := Undisturbed(Bucket(stream, WindowKey(l, c)), n, l, c);
      && (emitted == Sliding(own, n) <==> alone)
      && (|emitted| == |Sliding(own, n)| && (forall w :: w in emitted ==> Pure(w, l, c)) <==> alone)
  {
    hide Only, Given, Pure, Newest, Emitted, EmittedFor, Bucket, WindowKey, OwnFirst;
    var bucket := Bucket(stream, WindowKey(l, c));
    EmittedIsGiven(stream, n, l, c);
    OwnInBucket(stream, l, c);
    OnlyPure(stream, l, c);
    SlidingPure(Only(stream, l, c), n, l, c);
    if n == 1 {
      SinglesUnmixed(bucket, l, c);
    } else {
      UnmixedIff(bucket, n, l, c);
    }
    if Unmixed(bucket, n, l, c) {
      UnmixedSlides(bucket, n, l, c);
    }
  }

  /** A source whose bucket no other shares is undisturbed. */
  lemma OwnsKeyUndisturbed(stream: seq<Sample>, n: nat, l: string, c: string)
    requires OwnsKey(stream, l, c)
    ensures Undisturbed(Bucket(stream, WindowKey(l, c)), n, l, c)
  {
    var bucket := Bucket(stream, WindowKey(l, c));
    forall s | s in bucket
      ensures SameSource(s, l, c)
    {
      FilterMember(stream, (x: Sample) => KeyOf(x) == WindowKey(l, c), s);
    }
  }
}
