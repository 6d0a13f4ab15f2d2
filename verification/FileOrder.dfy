/** The log file against the journal: a run in which they disagree, and exactly which runs keep them in step. */
module FileOrder {
  import opened Basics
  import opened Topology
  import opened PathManager
  import opened RerouteLaws
  import opened Healer
  import opened HealerLaws
  import opened Telemetry
  import opened Protocol
  import Ingest
  import Tables

  // ------------------------------------------------------------------ runs in parts

  function Continue(w: World, st: System, steps: seq<Step>): System
    requires Valid(w.policy.topology)
  {
    if steps == [] then st else Next(w, Continue(w, st, steps[..|steps| - 1]), steps[|steps| - 1])
  }

  lemma {:induction false} AfterContinues(w: World, a: seq<Step>, b: seq<Step>)
    requires Valid(w.policy.topology)
    ensures After(w, a + b) == Continue(w, After(w, a), b)
  {
    hide Next, Start;
    if b == [] {
      assert a + b == a;
    } else {
      AfterContinues(w, a, b[..|b| - 1]);
      assert (a + b)[..|a + b| - 1] == a + b[..|b| - 1];
    }
  }

  // ------------------------------------------------------------------ a link's way to a request

  /** One sample and, if it completes a window, the scoring of its frame. */
  function Round(w: World, st: System, s: Sample): System
    requires Valid(w.policy.topology)
  {
    Next(w, Next(w, st, TakeSample(s)), Score(0, 0.0, 0.0))
  }

  function Rounds(s: Sample, m: nat): seq<Step> {
    if m == 0 then [] else Rounds(s, m - 1) + [TakeSample(s), Score(0, 0.0, 0.0)]
  }

  lemma ContinueRound(w: World, st: System, s: Sample, m: nat)
    requires Valid(w.policy.topology) && m > 0
    ensures Continue(w, st, Rounds(s, m)) == Round(w, Continue(w, st, Rounds(s, m - 1)), s)
  {
    hide Next;
    var steps, front := Rounds(s, m), Rounds(s, m - 1);
    var most := front + [TakeSample(s)];
    assert steps == front + [TakeSample(s), Score(0, 0.0, 0.0)];
    assert steps[..|steps| - 1] == most && most[..|most| - 1] == front;
  }

  lemma ContinueNoRounds(w: World, st: System, s: Sample)
    requires Valid(w.policy.topology)
    ensures Continue(w, st, Rounds(s, 0)) == st
  {
  }

  /** The scorer finds every frame worth a reroute. */
  ghost predicate AlwaysHot(w: World) {
    forall f :: w.score(f).pFail10m >= w.policy.thresholds.pFail
  }

  function Streak(w: World, m: nat): nat {
    Max(0, m + 1 - w.windowN)
  }

  /** Nothing but the windows, the links and the counts of samples and observations differs. */
  ghost predicate SameManager(a: System, b: System) {
    && b.manager == a.manager && b.served == a.served && b.answers == a.answers
    && b.writing == a.writing && b.file == a.file && b.unwritten == a.unwritten
  }

  ghost predicate SameElsewhere(a: System, b: System, s: Sample) {
    && (forall key :: key != Ingest.KeyOf(s) ==> Ingest.WindowAt(b.windows, key) == Ingest.WindowAt(a.windows, key))
    && (forall l :: l != s.linkId ==> LinkOf(b.links, l) == LinkOf(a.links, l))
  }

  /** From `base`, m samples of one source have been read and scored and no request made yet. */
  ghost predicate Warm(w: World, base: System, st: System, s: Sample, m: nat) {
    && SameManager(base, st) && SameElsewhere(base, st, s)
    && st.transit == [] && st.inFlight == base.inFlight
    && Ingest.WindowAt(st.windows, Ingest.KeyOf(s)) == Ingest.Copies(s, Min(m, w.windowN))
    && LinkOf(st.links, s.linkId) == Link(Streak(w, m), Streak(w, m), None, false)
  }

  /** The source has not been seen. */
  ghost predicate Cold(st: System, s: Sample) {
    && st.transit == [] && Ingest.WindowAt(st.windows, Ingest.KeyOf(s)) == []
    && LinkOf(st.links, s.linkId) == NEW_LINK
  }

  lemma ColdIsWarm(w: World, st: System, s: Sample)
    requires Cold(st, s) && w.windowN >= 1
    ensures Warm(w, st, st, s, 0)
  {
  }

  lemma RollCopies(s: Sample, m: nat, n: nat)
    requires n >= 1
    ensures Ingest.Copies(s, Min(m + 1, n)) == Roll(Ingest.Copies(s, Min(m, n)), s, n)
  {
  }

  /** What one round does to a warm state, up to the decision. */
  lemma RoundParts(w: World, base: System, st: System, s: Sample, m: nat)
    requires Valid(w.policy.topology) && w.windowN >= 1 && Warm(w, base, st, s, m)
    ensures var taken := TakeOne(w, st, s);
      && Ingest.WindowAt(taken.windows, Ingest.KeyOf(s)) == Ingest.Copies(s, Min(m + 1, w.windowN))
      && SameManager(base, taken) && SameElsewhere(base, taken, s)
      && taken.links == st.links && taken.inFlight == base.inFlight
      && taken.transit == if m + 1 < w.windowN then [] else [FrameOf(w.lib, Ingest.Copies(s, w.windowN))]
  {
    hide FrameOf, Roll, Ingest.Copies, LinkOf, Ingest.KeyOf;
    RollCopies(s, m, w.windowN);
    CopiesLength(s, Min(m + 1, w.windowN));
  }

  lemma CopiesLength(s: Sample, m: nat)
    ensures |Ingest.Copies(s, m)| == m
  {
  }

  /** The observation a full window of one sample leads to. */
  function Seen(w: World, s: Sample): Event
    requires w.windowN >= 1
  {
    Event(ObservationOf(w, FrameOf(w.lib, Ingest.Copies(s, w.windowN))), 0.0, 0.0)
  }

  lemma SeenLink(w: World, s: Sample)
    requires w.windowN >= 1
    ensures Seen(w, s).obs.linkId == s.linkId
    ensures AlwaysHot(w) ==> Hot(w.policy, Seen(w, s))
  {
  }

  lemma RoundScores(w: World, st: System, s: Sample)
    requires Valid(w.policy.topology) && w.windowN >= 1
    requires TakeOne(w, st, s).transit == [FrameOf(w.lib, Ingest.Copies(s, w.windowN))]
    ensures var taken := TakeOne(w, st, s);
      var (link, action) := Decide(w.policy, LinkOf(taken.links, s.linkId), Seen(w, s));
      Round(w, st, s) == taken.(transit := [], observed := taken.observed + [Seen(w, s)],
                                links := taken.links[s.linkId := link], inFlight := taken.inFlight + Emissions(action))
  {
    hide TakeOne, FrameOf, Decide, LinkOf, Ingest.Copies;
    var taken := TakeOne(w, st, s);
    SeenLink(w, s);
    assert Without(taken.transit, 0) == [];
    assert Round(w, st, s) == ScoreOne(w, taken, 0, 0.0, 0.0);
  }

  /** A hot observation that does not complete the streak only counts. */
  lemma StillCounting(p: Policy, e: Event, c: nat)
    requires Valid(p.topology) && Hot(p, e) && c + 1 < p.thresholds.consecutive
    ensures Decide(p, Link(c, c, None, false), e)
            == (Link(c + 1, c + 1, None, false), Counting(e.obs.linkId, c + 1))
  {
  }

  lemma RoundStaysWarm(w: World, base: System, st: System, s: Sample, m: nat)
    requires Valid(w.policy.topology) && w.windowN >= 1 && AlwaysHot(w) && Warm(w, base, st, s, m)
    requires Streak(w, m + 1) < Needed(w.policy)
    ensures Warm(w, base, Round(w, st, s), s, m + 1)
  {
    hide TakeOne, FrameOf, Decide, AlwaysHot, Ingest.Copies, Ingest.WindowAt, Ingest.KeyOf, Seen;
    RoundParts(w, base, st, s, m);
    if m + 1 >= w.windowN {
      SeenLink(w, s);
      RoundScores(w, st, s);
      StillCounting(w.policy, Seen(w, s), Streak(w, m));
      assert Round(w, st, s).inFlight == base.inFlight + multiset{};
    } else {
      assert Round(w, st, s) == TakeOne(w, st, s);
    }
  }

  lemma {:induction false} RoundsStayWarm(w: World, base: System, s: Sample, m: nat)
    requires Valid(w.policy.topology) && w.windowN >= 1 && AlwaysHot(w) && Cold(base, s)
    requires Streak(w, m) < Needed(w.policy)
    ensures Warm(w, base, Continue(w, base, Rounds(s, m)), s, m)
  {
    hide Cold, Warm, Round, AlwaysHot, Next, Continue, Rounds;
    if m == 0 {
      ContinueNoRounds(w, base, s);
      ColdIsWarm(w, base, s);
    } else {
      RoundsStayWarm(w, base, s, m - 1);
      ContinueRound(w, base, s, m);
      RoundStaysWarm(w, base, Continue(w, base, Rounds(s, m - 1)), s, m - 1);
    }
  }

  /** Samples it takes until the link's request goes out. */
  function Enough(w: World): nat
    requires w.windowN >= 1
  {
    w.windowN + Needed(w.policy) - 1
  }

  /** The request that goes out. */
  function RequestFor(w: World, s: Sample): Request
    requires w.windowN >= 1 && Valid(w.policy.topology) && Resolves(w.policy, s.linkId)
  {
    Payload(w.policy, Seen(w, s), HealerPath(w.policy.topology, s.linkId).value,
            ProtectionPath(w.policy.topology, s.linkId).value)
  }

  /** From `base`, the source's first request has gone out. */
  ghost predicate Requested(w: World, base: System, st: System, s: Sample)
    requires w.windowN >= 1 && Valid(w.policy.topology) && Resolves(w.policy, s.linkId)
  {
    && SameManager(base, st) && SameElsewhere(base, st, s) && st.transit == []
    && st.inFlight == base.inFlight + multiset{RequestFor(w, s), GrpcCopy(RequestFor(w, s))}
  }

  lemma NowFires(w: World, s: Sample, c: nat)
    requires w.windowN >= 1 && Valid(w.policy.topology) && Resolves(w.policy, s.linkId)
    requires Hot(w.policy, Seen(w, s)) && c + 1 == Needed(w.policy)
    ensures Decide(w.policy, Link(c, c, None, false), Seen(w, s)).1 == RerouteEmitted(s.linkId, RequestFor(w, s))
  {
    hide Payload, HealerPath;
    SeenLink(w, s);
  }

  lemma RoundsRequest(w: World, base: System, s: Sample)
    requires Valid(w.policy.topology) && w.windowN >= 1 && AlwaysHot(w) && Cold(base, s)
    requires Resolves(w.policy, s.linkId)
    ensures Requested(w, base, Continue(w, base, Rounds(s, Enough(w))), s)
  {
    hide TakeOne, FrameOf, Decide, AlwaysHot, Ingest.Copies, Ingest.WindowAt, Ingest.KeyOf, Seen, Cold, RequestFor;
    hide Resolves, Round, Rounds, Continue;
    var m := Enough(w) - 1;
    RoundsStayWarm(w, base, s, m);
    var st := Continue(w, base, Rounds(s, m));
    RoundParts(w, base, st, s, m);
    ContinueRound(w, base, s, m + 1);
    SeenLink(w, s);
    RoundScores(w, st, s);
    NowFires(w, s, Streak(w, m));
  }

  // ------------------------------------------------------------------ a run that disagrees

  /** Two sources of different links, each with a protection path, and room there for both. */
  ghost predicate BothFit(w: World, a: Sample, b: Sample)
    requires Valid(w.policy.topology)
  {
    && w.windowN >= 1 && AlwaysHot(w) && a.linkId != b.linkId && Ingest.KeyOf(a) != Ingest.KeyOf(b)
    && Resolves(w.policy, a.linkId) && Resolves(w.policy, b.linkId)
    && HasRoom(w, a, 1) && HasRoom(w, b, 1)
    && (ProtectionPath(w.policy.topology, a.linkId) == ProtectionPath(w.policy.topology, b.linkId) ==> HasRoom(w, a, 2))
  }

  predicate HasRoom(w: World, s: Sample, count: nat)
    requires Valid(w.policy.topology) && Resolves(w.policy, s.linkId)
  {
    var to := ProtectionPath(w.policy.topology, s.linkId).value;
    to in w.policy.topology.specs && LoadPath(w.policy.topology.specs[to]).capacity >= count
  }

  /** Both links ask and both requests are applied; the records are still to be written. */
  function PendingRun(w: World, a: Sample, b: Sample): seq<Step>
    requires w.windowN >= 1 && Valid(w.policy.topology)
    requires Resolves(w.policy, a.linkId) && Resolves(w.policy, b.linkId)
  {
    Rounds(a, Enough(w)) + Rounds(b, Enough(w)) + [Deliver(RequestFor(w, a)), Deliver(RequestFor(w, b))]
  }

  function RecordFor(w: World, s: Sample): Record
    requires w.windowN >= 1 && Valid(w.policy.topology) && Resolves(w.policy, s.linkId)
  {
    Record(RequestFor(w, s), true)
  }

  /** The second record reaches the file first. */
  function CrossingRun(w: World, a: Sample, b: Sample): seq<Step>
    requires w.windowN >= 1 && Valid(w.policy.topology)
    requires Resolves(w.policy, a.linkId) && Resolves(w.policy, b.linkId)
  {
    PendingRun(w, a, b) + [Append(RecordFor(w, b)), Append(RecordFor(w, a))]
  }

  lemma BothRequested(w: World, a: Sample, b: Sample)
    requires Valid(w.policy.topology) && BothFit(w, a, b)
    ensures var st := After(w, Rounds(a, Enough(w)) + Rounds(b, Enough(w)));
      && SameManager(Start(w), st)
      && RequestFor(w, a) in st.inFlight && RequestFor(w, b) in st.inFlight
  {
    hide AlwaysHot, Ingest.KeyOf, Resolves, RequestFor, HasRoom, Rounds;
    var first := Rounds(a, Enough(w));
    assert [] + first == first;
    AfterContinues(w, [], first);
    AfterContinues(w, first, Rounds(b, Enough(w)));
    assert Cold(Start(w), a);
    RoundsRequest(w, Start(w), a);
    var st := After(w, first);
    assert Cold(st, b) by {
      assert Ingest.WindowAt(st.windows, Ingest.KeyOf(b)) == Ingest.WindowAt(Start(w).windows, Ingest.KeyOf(b));
      assert LinkOf(st.links, b.linkId) == LinkOf(Start(w).links, b.linkId);
    }
    RoundsRequest(w, st, b);
  }

  lemma RequestParts(w: World, s: Sample)
    requires w.windowN >= 1 && Valid(w.policy.topology) && Resolves(w.policy, s.linkId)
    ensures var r := RequestFor(w, s);
      && r.linkId == s.linkId && r.fromPath in w.policy.topology.specs
      && Some(r.toPath) == ProtectionPath(w.policy.topology, s.linkId)
  {
    SeenLink(w, s);
  }

  /** The request carries the link's paths, the scorer's three numbers for its window, and the last sample's time. */
  lemma RequestContents(w: World, s: Sample)
    requires w.windowN >= 1 && Valid(w.policy.topology) && Resolves(w.policy, s.linkId)
    ensures var r := RequestFor(w, s);
      var scores := w.score(FrameOf(w.lib, Ingest.Copies(s, w.windowN)));
      && r.linkId == s.linkId && Some(r.fromPath) == HealerPath(w.policy.topology, s.linkId)
      && Some(r.toPath) == ProtectionPath(w.policy.topology, s.linkId)
      && r.sIf == scores.sIf && r.sAe == scores.sAe && r.pFail == scores.pFail10m
      && r.horizonS == w.policy.thresholds.horizonS && (s.tsUnixMs != 0 ==> r.tsUnixMs == s.tsUnixMs)
  {
    SeenLink(w, s);
  }

  /** Applied to the fresh manager one after the other, both requests are fresh moves. */
  lemma BothMove(w: World, a: Sample, b: Sample)
    requires Valid(w.policy.topology) && BothFit(w, a, b)
    ensures var start, q, r := Init(w.policy.topology), RequestFor(w, a), RequestFor(w, b);
      && FreshMove(start, q) && FreshMove(Move(start, q), r)
      && Move(Move(start, q), r).reroutes == [Record(q, true), Record(r, true)]
  {
    hide AlwaysHot, Ingest.KeyOf, Resolves, RequestFor, LoadPath;
    RequestParts(w, a);
    RequestParts(w, b);
    var start, q, r := Init(w.policy.topology), RequestFor(w, a), RequestFor(w, b);
    assert start.paths[q.toPath] == LoadPath(w.policy.topology.specs[q.toPath]);
    assert start.paths[r.toPath] == LoadPath(w.policy.topology.specs[r.toPath]);
    OneMove(start, q);
    OneMove(Move(start, q), r);
  }

  lemma DeliverMove(w: World, st: System, r: Request)
    requires Valid(w.policy.topology) && r in st.inFlight && FreshMove(st.manager, r)
    ensures var after := Next(w, st, Deliver(r));
      && after.manager == Move(st.manager, r) && after.file == st.file
      && after.writing == st.writing + multiset{Record(r, true)}
      && after.inFlight == st.inFlight - multiset{r}
  {
    hide Apply, Move;
    OneRequest(st.manager, r);
    assert Next(w, st, Deliver(r)) == DeliverOne(st, r);
  }

  lemma AfterTwo(w: World, run: seq<Step>, x: Step, y: Step)
    requires Valid(w.policy.topology)
    ensures After(w, run + [x]) == Next(w, After(w, run), x)
    ensures After(w, run + [x, y]) == Next(w, Next(w, After(w, run), x), y)
  {
    hide Next;
    assert (run + [x])[..|run|] == run;
    assert (run + [x, y])[..|run| + 1] == run + [x];
  }

  /** Both records are in the journal and pending, and nothing is on file. */
  ghost predicate PendingBoth(st: System, x: Record, y: Record) {
    st.manager.reroutes == [x, y] && st.writing == multiset{x, y} && st.file == []
  }

  lemma BothPending(w: World, a: Sample, b: Sample)
    requires Valid(w.policy.topology) && BothFit(w, a, b)
    ensures RecordFor(w, a) != RecordFor(w, b)
    ensures PendingBoth(After(w, PendingRun(w, a, b)), RecordFor(w, a), RecordFor(w, b))
  {
    hide AlwaysHot, Ingest.KeyOf, Resolves, RequestFor, HasRoom, Next, Init, FreshMove, Rounds, Move;
    var q, r := RequestFor(w, a), RequestFor(w, b);
    var asked := Rounds(a, Enough(w)) + Rounds(b, Enough(w));
    BothRequested(w, a, b);
    BothMove(w, a, b);
    RequestParts(w, a);
    RequestParts(w, b);
    var st := After(w, asked);
    AfterTwo(w, asked, Deliver(q), Deliver(r));
    DeliverMove(w, st, q);
    var one := Next(w, st, Deliver(q));
    assert r in one.inFlight;
    DeliverMove(w, one, r);
  }

  /**
   * The file is written outside the lock: in every world with two such sources there is a run after
   * which the journal lists the first record before the second and the file the other way round.
   */
  lemma FileCanDisagree(w: World, a: Sample, b: Sample)
    requires Valid(w.policy.topology) && BothFit(w, a, b)
    ensures var st, x, y := After(w, CrossingRun(w, a, b)), RecordFor(w, a), RecordFor(w, b);
      st.manager.reroutes == [x, y] && st.file == [y, x] && st.file != st.manager.reroutes
  {
    hide Resolves, HasRoom, AlwaysHot, Next, PendingRun, RecordFor;
    BothPending(w, a, b);
    var run, x, y := PendingRun(w, a, b), RecordFor(w, a), RecordFor(w, b);
    AfterTwo(w, run, Append(y), Append(x));
    FileOrderIsFree(w, After(w, run), y, x);
    AppendsKeepManager(w, After(w, run), y, x);
  }

  lemma AppendsKeepManager(w: World, st: System, a: Record, b: Record)
    requires Valid(w.policy.topology)
    ensures Next(w, Next(w, st, Append(a)), Append(b)).manager == st.manager
  {
    hide Next;
    ManagerUntouched(w, st, Append(a));
    ManagerUntouched(w, Next(w, st, Append(a)), Append(b));
  }

  /** The shipped topology with room for two on the protection path. */
  const ROOMY := SHIPPED.(specs := SHIPPED.specs["P_prot_L2" := PathSpec(["L2"], Some("protection"), Some(2))])

  /** The shipped window length and thresholds over it, and a scorer that is always alarmed. */
  function AlarmedWorld(): World {
    World(Library((x: real) => 0.0, (x: real) => 0.0), Policy(Thresholds(0.7, 3, 300.0, 600), ROOMY), WINDOW_N,
          (f: Frame) => Scores(1.0, 1.0, 1.0))
  }

  function SampleFrom(link: string): Sample {
    Sample(1000, link, "C1", 20.0, 0.0001, 50.0, 0.0, 0.0)
  }

  /** With shipped window, thresholds and links this happens as soon as the protection path holds two. */
  lemma ShippedFileCanDisagree()
    ensures var w, a, b := AlarmedWorld(), SampleFrom("L1"), SampleFrom("L3");
      && Valid(w.policy.topology) && BothFit(w, a, b)
      && After(w, CrossingRun(w, a, b)).file == [RecordFor(w, b), RecordFor(w, a)]
      && After(w, CrossingRun(w, a, b)).manager.reroutes == [RecordFor(w, a), RecordFor(w, b)]
  {
    var w, a, b := AlarmedWorld(), SampleFrom("L1"), SampleFrom("L3");
    RoomyResolves();
    assert Ingest.KeyOf(a)[1] != Ingest.KeyOf(b)[1];
    FileCanDisagree(w, a, b);
  }

  lemma RoomyIsValid()
    ensures Valid(ROOMY) && ROOMY.names == SHIPPED.names && "L1" != "L3"
    ensures HealerServes(ROOMY.specs["P_work_L1"], "L1") && HealerServes(ROOMY.specs["P_work_L3"], "L3")
    ensures "P_prot_L2" in ROOMY.specs && LoadPath(ROOMY.specs["P_prot_L2"]).capacity == 2
  {
    ShippedIsValid();
    DifferentNames();
  }

  lemma RoomyResolves()
    ensures Valid(ROOMY)
    ensures HealerPath(ROOMY, "L1").Some? && HealerPath(ROOMY, "L3").Some?
    ensures ProtectionPath(ROOMY, "L1") == ProtectionPath(ROOMY, "L3") == Some("P_prot_L2")
    ensures "P_prot_L2" in ROOMY.specs && LoadPath(ROOMY.specs["P_prot_L2"]).capacity == 2
    ensures "L1" != "L3"
  {
    RoomyIsValid();
    DifferentNames();
    ServedByName(ROOMY, "L1", 0);
    ServedByName(ROOMY, "L3", 2);
  }

  lemma ServedByName(c: Config, link: string, k: nat)
    requires Valid(c) && k < |c.names| && HealerServes(c.specs[c.names[k]], link)
    ensures HealerPath(c, link).Some?
  {
    hide HealerPathFrom;
    HealerPathIsFirst(c, link, 0);
  }

  // ------------------------------------------------------------------ runs that agree

  /** Where only the healer asks, the journal never holds two records of one link. */
  lemma JournalDistinct(w: World, steps: seq<Step>)
    requires Valid(w.policy.topology) && After(w, steps).posted == []
    ensures Tables.Distinct(After(w, steps).manager.reroutes)
  {
    hide After, Run, Init, OneRoute;
    var st := After(w, steps);
    RunsAreSequential(w, steps);
    StartIsFresh(w);
    var journal := st.manager.reroutes;
    forall i, j | 0 <= i < j < |journal|
      ensures journal[i] != journal[j]
    {
      ServedOneRoute(w, steps, journal[i].request.linkId);
      OneRecordPerLink(Init(w.policy.topology), st.served, journal[i].request.linkId);
      if journal[i] == journal[j] {
        CountedOnce(journal, i, j);
      }
    }
  }

  lemma {:induction false} CountedOnce(journal: seq<Record>, i: nat, j: nat)
    requires i < j < |journal| && journal[i] == journal[j]
    ensures CountLink(journal, journal[i].request.linkId) >= 2
  {
    var front := journal[..|journal| - 1];
    if j < |front| {
      CountedOnce(front, i, j);
    } else {
      CountedIfThere(front, i);
    }
  }

  lemma {:induction false} CountedIfThere(journal: seq<Record>, i: nat)
    requires i < |journal|
    ensures CountLink(journal, journal[i].request.linkId) >= 1
  {
    if i < |journal| - 1 {
      CountedIfThere(journal[..|journal| - 1], i);
    }
  }

  /** The record is the one pending that the journal lists first. */
  ghost predicate Oldest(st: System, rec: Record) {
    exists k: nat :: k < |st.manager.reroutes| && st.manager.reroutes[k] == rec
                  && forall j :: 0 <= j < k ==> st.manager.reroutes[j] !in st.writing
  }

  /** Every record written in the run was the oldest one pending at the time. */
  ghost predicate OldestFirst(w: World, steps: seq<Step>)
    requires Valid(w.policy.topology)
  {
    steps == [] ||
    (OldestFirst(w, steps[..|steps| - 1]) &&
     OldestTaken(After(w, steps[..|steps| - 1]), steps[|steps| - 1]))
  }

  ghost predicate OldestTaken(st: System, step: Step) {
    step.Append? && step.record in st.writing ==> Oldest(st, step.record)
  }

  predicate NothingFails(steps: seq<Step>) {
    forall i :: 0 <= i < |steps| ==> !steps[i].FailAppend?
  }

  /** A step makes one accepted record pending, or moves one pending record on, or touches neither journal nor file. */
  datatype Effect = Accepts(record: Record) | Writes(record: Record) | GivesUp(record: Record) | Neither

  ghost predicate HasEffect(a: System, b: System, e: Effect) {
    match e
    case Accepts(rec) =>
      && b.manager.reroutes == a.manager.reroutes + [rec] && b.writing == a.writing + multiset{rec}
      && b.file == a.file && b.unwritten == a.unwritten
    case Writes(rec) =>
      && b.manager == a.manager && rec in a.writing && b.writing == a.writing - multiset{rec}
      && b.file == a.file + [rec] && b.unwritten == a.unwritten
    case GivesUp(rec) =>
      && b.manager == a.manager && rec in a.writing && b.writing == a.writing - multiset{rec}
      && b.file == a.file
    case Neither =>
      && b.manager.reroutes == a.manager.reroutes && b.writing == a.writing
      && b.file == a.file && b.unwritten == a.unwritten
  }

  lemma EffectOf(w: World, st: System, step: Step) returns (e: Effect)
    requires Valid(w.policy.topology)
    ensures HasEffect(st, Next(w, st, step), e)
    ensures e.Writes? <==> step.Append? && step.record in st.writing
    ensures e.Writes? ==> e.record == step.record
    ensures e.GivesUp? ==> step.FailAppend?
  {
    hide TakeOne, ScoreOne, DeliverOne, AppendOne, FailOne, DropFrame, CopyRequest, PostOne, DropRequest, HasEffect;
    e := Neither;
    NoEffect(st);
    match step
    case Deliver(r) =>
      if r in st.inFlight {
        e := DeliverEffect(st, r);
      }
    case Append(rec) =>
      if rec in st.writing {
        WriteEffects(st, rec);
        e := Writes(rec);
      }
    case FailAppend(rec) =>
      if rec in st.writing {
        WriteEffects(st, rec);
        e := GivesUp(rec);
      }
    case _ =>
      hide Next;
      ManagerUntouched(w, st, step);
      RecordsUntouched(w, st, step);
      UntouchedIsNoEffect(st, Next(w, st, step));
  }

  lemma NoEffect(st: System)
    ensures HasEffect(st, st, Neither)
  {
  }

  lemma UntouchedIsNoEffect(a: System, b: System)
    requires a.manager == b.manager && a.file == b.file && a.writing == b.writing && a.unwritten == b.unwritten
    ensures HasEffect(a, b, Neither)
  {
  }

  lemma WriteEffects(st: System, rec: Record)
    requires rec in st.writing
    ensures HasEffect(st, AppendOne(st, rec), Writes(rec)) && HasEffect(st, FailOne(st, rec), GivesUp(rec))
  {
  }

  lemma DeliverEffect(st: System, r: Request) returns (e: Effect)
    ensures HasEffect(st, DeliverOne(st, r), e) && (e.Accepts? || e.Neither?)
  {
    hide Apply, Move;
    OneRequest(st.manager, r);
    if Apply(st.manager, r).logged.Some? {
      OneMove(st.manager, r);
      e := Accepts(Record(r, true));
    } else {
      e := Neither;
    }
  }

  /** Every record written in the run was the first of the journal not on file at the time. */
  ghost predicate NextFirst(w: World, steps: seq<Step>)
    requires Valid(w.policy.topology)
  {
    steps == [] ||
    (NextFirst(w, steps[..|steps| - 1]) &&
     NextTaken(After(w, steps[..|steps| - 1]), steps[|steps| - 1]))
  }

  ghost predicate NextTaken(st: System, step: Step) {
    step.Append? && step.record in st.writing ==>
      |st.file| < |st.manager.reroutes| && step.record == st.manager.reroutes[|st.file|]
  }

  /** One step keeps the file a prefix of the journal exactly when what it writes comes next. */
  lemma PrefixStep(a: System, b: System, step: Step, e: Effect)
    requires HasEffect(a, b, e) && a.file <= a.manager.reroutes
    requires e.Writes? <==> step.Append? && step.record in a.writing
    requires e.Writes? ==> e.record == step.record
    ensures b.file <= b.manager.reroutes <==> NextTaken(a, step)
  {
    if e.Writes? && b.file <= b.manager.reroutes {
      assert b.file[|a.file|] == e.record;
    }
  }

  /** In every run the file is a prefix of the journal exactly when each write took what came next. */
  lemma {:induction false} PrefixIff(w: World, steps: seq<Step>)
    requires Valid(w.policy.topology)
    ensures After(w, steps).file <= After(w, steps).manager.reroutes <==> NextFirst(w, steps)
  {
    hide Next, HasEffect, NextTaken, RecordsAccounted;
    if steps != [] {
      var front, step := steps[..|steps| - 1], steps[|steps| - 1];
      PrefixIff(w, front);
      RunsAreSequential(w, front);
      var a := After(w, front);
      FileNotLonger(a);
      var e := EffectOf(w, a, step);
      if NextFirst(w, front) {
        PrefixStep(a, Next(w, a, step), step, e);
      } else {
        OutOfStepStays(a, Next(w, a, step), e);
      }
    }
  }

  /** The journal only grows, so what is distinct at the end was distinct before. */
  lemma DistinctBefore(a: System, b: System, e: Effect)
    requires HasEffect(a, b, e) && Tables.Distinct(b.manager.reroutes)
    ensures Tables.Distinct(a.manager.reroutes)
  {
    assert forall i :: 0 <= i < |a.manager.reroutes| ==> a.manager.reroutes[i] == b.manager.reroutes[i];
  }

  /** The file holds the front of the journal, and the rest is pending. */
  ghost predicate InStep(st: System) {
    && st.file <= st.manager.reroutes
    && st.writing == multiset(st.manager.reroutes[|st.file|..])
  }

  lemma PendingAfterFile(journal: seq<Record>, f: nat, rec: Record)
    requires Tables.Distinct(journal) && f <= |journal|
    ensures rec in multiset(journal[f..]) <==> exists k :: f <= k < |journal| && journal[k] == rec
    ensures forall j :: 0 <= j < f ==> journal[j] !in multiset(journal[f..])
  {
    assert rec in multiset(journal[f..]) <==> rec in journal[f..];
    forall j | 0 <= j < f
      ensures journal[j] !in multiset(journal[f..])
    {
      assert forall k :: f <= k < |journal| ==> journal[k] != journal[j];
    }
  }

  /** In step, the next record to write is the oldest one pending and no other. */
  lemma OldestIsNext(st: System, rec: Record)
    requires InStep(st) && Tables.Distinct(st.manager.reroutes) && rec in st.writing
    ensures |st.file| < |st.manager.reroutes|
    ensures Oldest(st, rec) <==> rec == st.manager.reroutes[|st.file|]
  {
    var journal, f := st.manager.reroutes, |st.file|;
    PendingAfterFile(journal, f, rec);
    if Oldest(st, rec) {
      var k: nat :| k < |journal| && journal[k] == rec && forall j :: 0 <= j < k ==> journal[j] !in st.writing;
      PendingAfterFile(journal, f, journal[f]);
    }
  }

  lemma WriteInStep(a: System, b: System, rec: Record)
    requires InStep(a) && HasEffect(a, b, Writes(rec)) && Tables.Distinct(a.manager.reroutes)
    ensures if Oldest(a, rec) then InStep(b) else !(b.file <= b.manager.reroutes)
  {
    hide Oldest;
    OldestIsNext(a, rec);
    if Oldest(a, rec) {
      MoveOn(a.manager.reroutes, |a.file|);
    } else {
      assert b.file[|a.file|] == rec;
    }
  }

  lemma MoveOn(journal: seq<Record>, f: nat)
    requires f < |journal|
    ensures journal[..f] + [journal[f]] == journal[..f + 1]
    ensures multiset(journal[f..]) - multiset{journal[f]} == multiset(journal[f + 1..])
  {
    assert journal[f..] == [journal[f]] + journal[f + 1..];
  }

  lemma AcceptInStep(a: System, b: System, rec: Record)
    requires InStep(a) && HasEffect(a, b, Accepts(rec))
    ensures InStep(b)
  {
    assert b.manager.reroutes[|a.file|..] == a.manager.reroutes[|a.file|..] + [rec];
  }

  /** Once out of step, always out of step. */
  lemma OutOfStepStays(a: System, b: System, e: Effect)
    requires HasEffect(a, b, e) && |a.file| <= |a.manager.reroutes| && !(a.file <= a.manager.reroutes)
    ensures !(b.file <= b.manager.reroutes)
  {
    var i :| 0 <= i < |a.file| && a.file[i] != a.manager.reroutes[i];
    assert b.file[i] == a.file[i] && b.manager.reroutes[i] == a.manager.reroutes[i];
  }

  lemma FileNotLonger(st: System)
    requires RecordsAccounted(st)
    ensures |st.file| <= |st.manager.reroutes|
  {
    assert |multiset(st.file)| <= |multiset(st.manager.reroutes)|;
  }

  lemma {:induction false} InStepIff(w: World, steps: seq<Step>)
    requires Valid(w.policy.topology) && NothingFails(steps) && Tables.Distinct(After(w, steps).manager.reroutes)
    ensures OldestFirst(w, steps) ==> InStep(After(w, steps))
    ensures !OldestFirst(w, steps) ==> !(After(w, steps).file <= After(w, steps).manager.reroutes)
  {
    hide Next, InStep, Oldest, HasEffect;
    if steps == [] {
      StartInStep(w);
    } else {
      var front, step := steps[..|steps| - 1], steps[|steps| - 1];
      var a := After(w, front);
      var e := EffectOf(w, a, step);
      DistinctBefore(a, Next(w, a, step), e);
      InStepIff(w, front);
      RunsAreSequential(w, front);
      FileNotLonger(a);
      if OldestFirst(w, front) {
        OneStepInStep(a, Next(w, a, step), step, e);
      } else {
        OutOfStepStays(a, Next(w, a, step), e);
      }
    }
  }

  lemma StartInStep(w: World)
    ensures InStep(Start(w))
  {
  }

  lemma OneStepInStep(a: System, b: System, step: Step, e: Effect)
    requires InStep(a) && Tables.Distinct(a.manager.reroutes) && HasEffect(a, b, e) && !e.GivesUp?
    requires e.Writes? <==> step.Append? && step.record in a.writing
    requires e.Writes? ==> e.record == step.record
    ensures if OldestTaken(a, step) then InStep(b) else !(b.file <= b.manager.reroutes)
  {
    hide Oldest;
    match e
    case Accepts(rec) => AcceptInStep(a, b, rec);
    case Writes(rec) => WriteInStep(a, b, rec);
    case Neither =>
    case GivesUp(rec) =>
  }

  /**
   * In every run the file is a prefix of the journal at the end exactly when every record written came
   * next in the journal at the time. Without write failures, and without repeated records, that is
   * exactly when every record written was the oldest one pending.
   */
  lemma FileFollowsJournalIff(w: World, steps: seq<Step>)
    requires Valid(w.policy.topology)
    ensures After(w, steps).file <= After(w, steps).manager.reroutes <==> NextFirst(w, steps)
    ensures NothingFails(steps) && Tables.Distinct(After(w, steps).manager.reroutes) ==>
      (NextFirst(w, steps) <==> OldestFirst(w, steps))
  {
    hide After, OldestFirst, NextFirst, NothingFails, Tables.Distinct, InStep;
    PrefixIff(w, steps);
    if NothingFails(steps) && Tables.Distinct(After(w, steps).manager.reroutes) {
      InStepIff(w, steps);
      InStepIsPrefix(After(w, steps));
    }
  }

  lemma InStepIsPrefix(st: System)
    requires InStep(st) || !(st.file <= st.manager.reroutes)
    ensures InStep(st) <==> st.file <= st.manager.reroutes
  {
  }

  // ------------------------------------------------------------------ with write failures

  /** The journal lists x before y. */
  ghost predicate Before(journal: seq<Record>, x: Record, y: Record) {
    exists p, q :: 0 <= p < q < |journal| && journal[p] == x && journal[q] == y
  }

  /** The file keeps the journal's order, and nothing pending comes before anything on file. */
  ghost predicate InOrder(st: System) {
    && (forall i, j :: 0 <= i < j < |st.file| ==> Before(st.manager.reroutes, st.file[i], st.file[j]))
    && (forall i, y :: 0 <= i < |st.file| && y in st.writing ==> Before(st.manager.reroutes, st.file[i], y))
  }

  lemma BeforeGrows(journal: seq<Record>, rec: Record, x: Record, y: Record)
    ensures Before(journal, x, y) ==> Before(journal + [rec], x, y)
    ensures x in journal ==> Before(journal + [rec], x, rec)
  {
    var more := journal + [rec];
    if p, q :| 0 <= p < q < |journal| && journal[p] == x && journal[q] == y {
      assert more[p] == x && more[q] == y;
    }
    if p :| 0 <= p < |journal| && journal[p] == x {
      assert more[p] == x && more[|journal|] == rec;
    }
  }

  lemma AcceptInOrder(a: System, b: System, rec: Record)
    requires InOrder(a) && RecordsAccounted(a) && HasEffect(a, b, Accepts(rec))
    ensures InOrder(b)
  {
    hide Before;
    var journal := a.manager.reroutes;
    forall x, y
      ensures Before(journal, x, y) ==> Before(b.manager.reroutes, x, y)
      ensures x in journal ==> Before(b.manager.reroutes, x, rec)
    {
      BeforeGrows(journal, rec, x, y);
    }
    forall i | 0 <= i < |a.file|
      ensures a.file[i] in journal
    {
      assert a.file[i] in multiset(a.file);
      assert a.file[i] in multiset(journal);
    }
  }

  /** The oldest pending record comes before every other pending one. */
  lemma OldestBeforeRest(a: System, rec: Record, y: Record)
    requires RecordsAccounted(a) && Tables.Distinct(a.manager.reroutes) && Oldest(a, rec)
    requires rec in a.writing && y in a.writing - multiset{rec}
    ensures Before(a.manager.reroutes, rec, y)
  {
    var journal := a.manager.reroutes;
    Tables.DistinctMultiset(journal);
    assert multiset(journal)[rec] <= 1 && a.writing[rec] <= multiset(journal)[rec];
    assert y != rec;
    assert y in multiset(journal);
    var q :| 0 <= q < |journal| && journal[q] == y;
    var k: nat :| k < |journal| && journal[k] == rec && forall j :: 0 <= j < k ==> journal[j] !in a.writing;
    assert k < q;
  }

  lemma WriteInOrder(a: System, b: System, rec: Record)
    requires InOrder(a) && RecordsAccounted(a) && Tables.Distinct(a.manager.reroutes)
    requires HasEffect(a, b, Writes(rec)) && Oldest(a, rec)
    ensures InOrder(b)
  {
    hide Before, Oldest, RecordsAccounted;
    forall y | y in b.writing
      ensures y in a.writing && Before(a.manager.reroutes, rec, y)
    {
      OldestBeforeRest(a, rec, y);
    }
    assert forall i :: 0 <= i < |b.file| ==> b.file[i] == if i < |a.file| then a.file[i] else rec;
  }

  lemma OneStepInOrder(a: System, b: System, step: Step, e: Effect)
    requires InOrder(a) && RecordsAccounted(a) && Tables.Distinct(a.manager.reroutes) && HasEffect(a, b, e)
    requires e.Writes? <==> step.Append? && step.record in a.writing
    requires e.Writes? ==> e.record == step.record
    requires OldestTaken(a, step)
    ensures InOrder(b)
  {
    match e
    case Accepts(rec) =>
      hide InOrder, Oldest, RecordsAccounted, HasEffect;
      AcceptInOrder(a, b, rec);
    case Writes(rec) =>
      hide InOrder, Oldest, RecordsAccounted, HasEffect;
      WriteInOrder(a, b, rec);
    case GivesUp(rec) =>
      hide Before;
    case Neither =>
      hide Before;
  }

  /** Even if writes fail, a run that always writes the oldest pending record keeps the file in journal order. */
  lemma {:induction false} OldestFirstKeepsOrder(w: World, steps: seq<Step>)
    requires Valid(w.policy.topology) && OldestFirst(w, steps)
    requires Tables.Distinct(After(w, steps).manager.reroutes)
    ensures InOrder(After(w, steps))
  {
    hide Next, InOrder, Oldest, HasEffect, RecordsAccounted;
    if steps == [] {
      StartInOrder(w);
    } else {
      var front, step := steps[..|steps| - 1], steps[|steps| - 1];
      var a := After(w, front);
      var e := EffectOf(w, a, step);
      DistinctBefore(a, Next(w, a, step), e);
      OldestFirstKeepsOrder(w, front);
      RunsAreSequential(w, front);
      OneStepInOrder(a, Next(w, a, step), step, e);
    }
  }

  lemma StartInOrder(w: World)
    ensures InOrder(Start(w))
  {
  }

  /** The file lists its records in the journal's order. */
  ghost predicate FileInOrder(st: System) {
    forall i, j :: 0 <= i < j < |st.file| ==> Before(st.manager.reroutes, st.file[i], st.file[j])
  }

  /** Every record written in the run came after everything on file at the time. */
  ghost predicate NothingOvertaken(w: World, steps: seq<Step>)
    requires Valid(w.policy.topology)
  {
    steps == [] ||
    (NothingOvertaken(w, steps[..|steps| - 1]) &&
     LaterTaken(After(w, steps[..|steps| - 1]), steps[|steps| - 1]))
  }

  ghost predicate LaterTaken(st: System, step: Step) {
    step.Append? && step.record in st.writing ==>
      forall i :: 0 <= i < |st.file| ==> Before(st.manager.reroutes, st.file[i], step.record)
  }

  /** A journal that grows without repeating a record keeps the order of the records it had. */
  lemma SameOrderLater(journal: seq<Record>, rec: Record, x: Record, y: Record)
    requires Tables.Distinct(journal + [rec]) && y in journal
    ensures Before(journal + [rec], x, y) <==> Before(journal, x, y)
  {
    var more := journal + [rec];
    BeforeGrows(journal, rec, x, y);
    if p, q :| 0 <= p < q < |more| && more[p] == x && more[q] == y {
      var k :| 0 <= k < |journal| && journal[k] == y;
      assert more[k] == more[q];
      assert journal[p] == x && journal[q] == y;
    }
  }

  lemma FiledIsJournalled(st: System, i: nat)
    requires RecordsAccounted(st) && i < |st.file|
    ensures st.file[i] in st.manager.reroutes
  {
    assert st.file[i] in multiset(st.file);
    assert st.file[i] in multiset(st.manager.reroutes);
  }

  lemma AcceptFileOrder(a: System, b: System, rec: Record)
    requires RecordsAccounted(a) && HasEffect(a, b, Accepts(rec)) && Tables.Distinct(b.manager.reroutes)
    ensures FileInOrder(b) <==> FileInOrder(a)
  {
    hide Before, RecordsAccounted, Tables.Distinct;
    forall i, j | 0 <= i < j < |a.file|
      ensures Before(b.manager.reroutes, a.file[i], a.file[j]) <==> Before(a.manager.reroutes, a.file[i], a.file[j])
    {
      FiledIsJournalled(a, j);
      SameOrderLater(a.manager.reroutes, rec, a.file[i], a.file[j]);
    }
  }

  lemma WriteFileOrder(a: System, b: System, rec: Record)
    requires HasEffect(a, b, Writes(rec))
    ensures FileInOrder(b) <==>
            FileInOrder(a) && forall i :: 0 <= i < |a.file| ==> Before(a.manager.reroutes, a.file[i], rec)
  {
    hide Before;
    assert b.file[|a.file|] == rec && forall i :: 0 <= i < |a.file| ==> b.file[i] == a.file[i];
    if FileInOrder(b) {
      forall i | 0 <= i < |a.file|
        ensures Before(a.manager.reroutes, a.file[i], rec)
      {
        assert Before(b.manager.reroutes, b.file[i], b.file[|a.file|]);
      }
      forall i, j | 0 <= i < j < |a.file|
        ensures Before(a.manager.reroutes, a.file[i], a.file[j])
      {
        assert Before(b.manager.reroutes, b.file[i], b.file[j]);
      }
    }
  }

  lemma OneStepFileOrder(a: System, b: System, step: Step, e: Effect)
    requires RecordsAccounted(a) && HasEffect(a, b, e) && Tables.Distinct(b.manager.reroutes)
    requires e.Writes? <==> step.Append? && step.record in a.writing
    requires e.Writes? ==> e.record == step.record
    ensures FileInOrder(b) <==> FileInOrder(a) && LaterTaken(a, step)
  {
    match e
    case Accepts(rec) =>
      hide FileInOrder, RecordsAccounted, HasEffect, Tables.Distinct;
      AcceptFileOrder(a, b, rec);
    case Writes(rec) =>
      hide FileInOrder, RecordsAccounted, HasEffect, Tables.Distinct, Before;
      WriteFileOrder(a, b, rec);
    case GivesUp(rec) =>
      hide Before, RecordsAccounted, Tables.Distinct;
    case Neither =>
      hide Before, RecordsAccounted, Tables.Distinct;
  }

  lemma {:induction false} FileInOrderIff(w: World, steps: seq<Step>)
    requires Valid(w.policy.topology) && Tables.Distinct(After(w, steps).manager.reroutes)
    ensures FileInOrder(After(w, steps)) <==> NothingOvertaken(w, steps)
  {
    hide Next, FileInOrder, LaterTaken, HasEffect, RecordsAccounted;
    if steps == [] {
      StartFileInOrder(w);
    } else {
      var front, step := steps[..|steps| - 1], steps[|steps| - 1];
      var a := After(w, front);
      var e := EffectOf(w, a, step);
      DistinctBefore(a, Next(w, a, step), e);
      FileInOrderIff(w, front);
      RunsAreSequential(w, front);
      OneStepFileOrder(a, Next(w, a, step), step, e);
    }
  }

  lemma StartFileInOrder(w: World)
    ensures FileInOrder(Start(w))
  {
  }

  /**
   * In every run without repeated records, write failures or not, the file lists its records in the
   * journal's order exactly when each record written came after everything already on file. Writing
   * the oldest pending record first is one way to see to that.
   */
  lemma FileKeepsOrderIff(w: World, steps: seq<Step>)
    requires Valid(w.policy.topology) && Tables.Distinct(After(w, steps).manager.reroutes)
    ensures FileInOrder(After(w, steps)) <==> NothingOvertaken(w, steps)
    ensures OldestFirst(w, steps) ==> FileInOrder(After(w, steps))
  {
    hide After, OldestFirst, NothingOvertaken, Tables.Distinct;
    FileInOrderIff(w, steps);
    if OldestFirst(w, steps) {
      OldestFirstKeepsOrder(w, steps);
    }
  }

  /**
   * With a failed append in between, a run that writes the oldest pending record only can leave a file
   * that is no prefix of the journal.
   */
  lemma FailureLeavesGap(w: World, a: Sample, b: Sample)
    requires Valid(w.policy.topology) && BothFit(w, a, b)
    ensures var run := PendingRun(w, a, b) + [FailAppend(RecordFor(w, a)), Append(RecordFor(w, b))];
      && Oldest(After(w, PendingRun(w, a, b) + [FailAppend(RecordFor(w, a))]), RecordFor(w, b))
      && After(w, run).file == [RecordFor(w, b)] && !(After(w, run).file <= After(w, run).manager.reroutes)
  {
    hide Resolves, HasRoom, AlwaysHot, PendingRun, RecordFor, After;
    BothPending(w, a, b);
    var run, x, y := PendingRun(w, a, b), RecordFor(w, a), RecordFor(w, b);
    AfterTwo(w, run, FailAppend(x), Append(y));
    var st := After(w, run);
    FailThenWrite(st, x, y);
    NextWrites(w, st, x);
    NextWrites(w, FailOne(st, x), y);
  }

  lemma NextWrites(w: World, st: System, rec: Record)
    requires Valid(w.policy.topology) && rec in st.writing
    ensures Next(w, st, Append(rec)) == AppendOne(st, rec) && Next(w, st, FailAppend(rec)) == FailOne(st, rec)
  {
    hide TakeOne, ScoreOne, DeliverOne;
  }

  lemma FailThenWrite(st: System, x: Record, y: Record)
    requires PendingBoth(st, x, y) && x != y
    ensures var failed := FailOne(st, x);
      && y in failed.writing && Oldest(failed, y) && AppendOne(failed, y).file == [y]
      && !(AppendOne(failed, y).file <= st.manager.reroutes)
  {
    var failed := FailOne(st, x);
    assert failed.writing == multiset{y};
    assert failed.manager.reroutes[1] == y && failed.manager.reroutes[0] !in failed.writing;
    assert AppendOne(failed, y).file == [y];
    assert [y][0] != st.manager.reroutes[0];
  }

  /** And a run can write another than the oldest pending record and keep the order, if that one then fails. */
  lemma FailureKeepsOrder(w: World, a: Sample, b: Sample)
    requires Valid(w.policy.topology) && BothFit(w, a, b)
    ensures var run := PendingRun(w, a, b) + [Append(RecordFor(w, b)), FailAppend(RecordFor(w, a))];
      && !Oldest(After(w, PendingRun(w, a, b)), RecordFor(w, b))
      && After(w, run).file == [RecordFor(w, b)] && FileInOrder(After(w, run))
  {
    hide Resolves, HasRoom, AlwaysHot, PendingRun, RecordFor, After;
    BothPending(w, a, b);
    var run, x, y := PendingRun(w, a, b), RecordFor(w, a), RecordFor(w, b);
    AfterTwo(w, run, Append(y), FailAppend(x));
    var st := After(w, run);
    assert st.manager.reroutes[0] in st.writing;
    NextWrites(w, st, y);
    assert AppendOne(st, y).writing == multiset{x};
    NextWrites(w, AppendOne(st, y), x);
  }
}
