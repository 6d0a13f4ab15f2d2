/**
 * The whole pipeline as one transition system: samples come in, frames travel and may be lost or
 * reordered, observations drive the healer, its requests and those other clients post travel and may
 * be lost, reordered or duplicated, the path manager applies them one at a time, and its log file is
 * written outside the lock.
 */
module Protocol {
  import opened Basics
  import opened Topology
  import opened PathManager
  import opened RerouteLaws
  import opened Healer
  import opened HealerLaws
  import opened Telemetry
  import Ingest

  datatype Scores = Scores(sIf: real, sAe: real, pFail10m: real)

  /** Everything fixed during a run; the scorer is an arbitrary function of the frame. */
  datatype World = World(lib: Library, policy: Policy, windowN: nat, score: Frame -> Scores)

  datatype System = System(
    accepted: seq<Sample>,                  // samples ingested so far
    windows: map<string, seq<Sample>>,      // rolling windows of the ingest process
    transit: seq<Frame>,                    // frames sent but not yet scored
    observed: seq<Event>,                   // observations the healer has taken
    links: map<string, Link>,               // the healer's per-link state
    inFlight: multiset<Request>,            // requests sent but not yet applied
    served: seq<Request>,                   // requests in the order they took the lock
    answers: seq<Response>,                 // and their answers
    manager: State,
    writing: multiset<Record>,              // accepted records not yet appended to the file
    file: seq<Record>,
    unwritten: multiset<Record>,            // records whose append failed
    posted: seq<Request>)                   // requests posted by clients other than the healer

  datatype Step =
    | TakeSample(sample: Sample)
    | LoseFrame(at: nat)
    | Score(at: nat, clockNow: real, clockStamp: real)
    | Post(request: Request)
    | Deliver(request: Request)
    | Duplicate(request: Request)
    | LoseRequest(request: Request)
    | Append(record: Record)
    | FailAppend(record: Record)

  function Start(w: World): System {
    System([], map[], [], [], map[], multiset{}, [], [], Init(w.policy.topology), multiset{}, [], multiset{}, [])
  }

  /** The gRPC servicer reads a zero horizon as unset. */
  function GrpcCopy(r: Request): Request {
    r.(horizonS := if r.horizonS == 0 then 600 else r.horizonS)
  }

  /** The copy that goes out over gRPC differs from the other at most in a horizon of zero, which it reads as 600. */
  lemma GrpcCopyIs(r: Request)
    ensures GrpcCopy(r).horizonS == (if r.horizonS == 0 then 600 else r.horizonS)
    ensures GrpcCopy(r).(horizonS := r.horizonS) == r
  {
  }

  function ObservationOf(w: World, f: Frame): Observation {
    var s := w.score(f);
    Observation(f.tsUnixMs, f.linkId, f.channelId, s.sIf, s.sAe, s.pFail10m)
  }

  /** The two copies of the payload, one per transport, if the decision was to reroute. */
  function Emissions(a: Action): multiset<Request> {
    if a.RerouteEmitted? then multiset{a.payload, GrpcCopy(a.payload)} else multiset{}
  }

  function TakeOne(w: World, st: System, sample: Sample): System {
    var windows := Ingest.Accept(st.windows, sample, w.windowN);
    var window := Ingest.WindowAt(windows, Ingest.KeyOf(sample));
    st.(accepted := st.accepted + [sample], windows := windows,
        transit := if |window| == w.windowN && window != [] then st.transit + [FrameOf(w.lib, window)] else st.transit)
  }

  function ScoreOne(w: World, st: System, at: nat, clockNow: real, clockStamp: real): System
    requires Valid(w.policy.topology) && at < |st.transit|
  {
    var e := Event(ObservationOf(w, st.transit[at]), clockNow, clockStamp);
    var (link, action) := Decide(w.policy, LinkOf(st.links, e.obs.linkId), e);
    st.(transit := Without(st.transit, at), observed := st.observed + [e],
        links := st.links[e.obs.linkId := link], inFlight := st.inFlight + Emissions(action))
  }

  function DeliverOne(st: System, r: Request): System {
    var outcome := Apply(st.manager, r);
    st.(inFlight := st.inFlight - multiset{r}, served := st.served + [r],
        answers := st.answers + [outcome.response], manager := outcome.state,
        writing := if outcome.logged.Some? then st.writing + multiset{outcome.logged.value} else st.writing)
  }

  function DropFrame(st: System, at: nat): System
    requires at < |st.transit|
  {
    st.(transit := Without(st.transit, at))
  }

  function CopyRequest(st: System, r: Request): System {
    st.(inFlight := st.inFlight + multiset{r})
  }

  function PostOne(st: System, r: Request): System {
    st.(inFlight := st.inFlight + multiset{r}, posted := st.posted + [r])
  }

  function DropRequest(st: System, r: Request): System {
    st.(inFlight := st.inFlight - multiset{r})
  }

  function AppendOne(st: System, rec: Record): System {
    st.(writing := st.writing - multiset{rec}, file := st.file + [rec])
  }

  function FailOne(st: System, rec: Record): System {
    st.(writing := st.writing - multiset{rec}, unwritten := st.unwritten + multiset{rec})
  }

  /** One step; a step that is not possible in the current state changes nothing. */
  function Next(w: World, st: System, step: Step): System
    requires Valid(w.policy.topology)
  {
    match step
    case TakeSample(s) => TakeOne(w, st, s)
    case LoseFrame(at) => if at < |st.transit| then DropFrame(st, at) else st
    case Score(at, now, stamp) => if at < |st.transit| then ScoreOne(w, st, at, now, stamp) else st
    case Post(r) => PostOne(st, r)
    case Deliver(r) => if r in st.inFlight then DeliverOne(st, r) else st
    case Duplicate(r) => if r in st.inFlight then CopyRequest(st, r) else st
    case LoseRequest(r) => DropRequest(st, r)
    case Append(rec) => if rec in st.writing then AppendOne(st, rec) else st
    case FailAppend(rec) => if rec in st.writing then FailOne(st, rec) else st
  }

  /** The state after any sequence of steps, that is, after any interleaving. */
  function After(w: World, steps: seq<Step>): System
    requires Valid(w.policy.topology)
  {
    if steps == [] then Start(w) else Next(w, After(w, steps[..|steps| - 1]), steps[|steps| - 1])
  }

  // ------------------------------------------------------------------ the manager and its file

  /** The manager's state and answers are those of its served requests, run one after the other. */
  ghost predicate Sequential(w: World, st: System) {
    && st.manager == Run(Init(w.policy.topology), st.served)
    && |st.answers| == |st.served|
    && forall i :: 0 <= i < |st.served| ==> st.answers[i] == Answer(Init(w.policy.topology), st.served, i)
  }

  /** Every accepted record is in exactly one place: on file, being written, or given up. */
  ghost predicate RecordsAccounted(st: System) {
    multiset(st.file) + st.writing + st.unwritten == multiset(st.manager.reroutes)
  }

  lemma DeliverKeepsSequential(w: World, st: System, r: Request)
    requires Sequential(w, st)
    ensures Sequential(w, DeliverOne(st, r))
  {
    hide Apply;
    RunSnoc(Init(w.policy.topology), st.served, r);
  }

  lemma DeliverKeepsRecords(st: System, r: Request)
    requires RecordsAccounted(st)
    ensures RecordsAccounted(DeliverOne(st, r))
  {
    hide Apply, Move;
    OneRequest(st.manager, r);
    if Apply(st.manager, r).logged.Some? {
      OneMove(st.manager, r);
    }
  }

  lemma WriteKeepsRecords(st: System, rec: Record)
    requires RecordsAccounted(st) && rec in st.writing
    ensures RecordsAccounted(AppendOne(st, rec))
    ensures RecordsAccounted(FailOne(st, rec))
  {
    assert (st.writing - multiset{rec}) + multiset{rec} == st.writing;
  }

  /** Steps other than deliveries leave the manager alone. */
  lemma ManagerUntouched(w: World, st: System, step: Step)
    requires Valid(w.policy.topology) && !step.Deliver?
    ensures var after := Next(w, st, step);
      after.manager == st.manager && after.served == st.served && after.answers == st.answers
  {
    hide Decide, LinkOf, FrameOf, Ingest.Accept, Ingest.WindowAt, ObservationOf;
  }

  /** Steps outside the manager leave its records alone. */
  lemma RecordsUntouched(w: World, st: System, step: Step)
    requires Valid(w.policy.topology) && !step.Deliver? && !step.Append? && !step.FailAppend?
    ensures var after := Next(w, st, step);
      after.file == st.file && after.writing == st.writing && after.unwritten == st.unwritten
  {
    hide Decide, LinkOf, FrameOf, Ingest.Accept, Ingest.WindowAt, ObservationOf;
  }

  lemma NextKeepsManager(w: World, st: System, step: Step)
    requires Valid(w.policy.topology) && Sequential(w, st) && RecordsAccounted(st)
    ensures Sequential(w, Next(w, st, step)) && RecordsAccounted(Next(w, st, step))
  {
    hide Sequential, RecordsAccounted, DeliverOne, AppendOne, FailOne, TakeOne, ScoreOne;
    match step
    case Deliver(r) =>
      if r in st.inFlight {
        DeliverKeepsSequential(w, st, r);
        DeliverKeepsRecords(st, r);
      }
    case Append(rec) =>
      ManagerUntouched(w, st, step);
      SequentialDepends(w, st, Next(w, st, step));
      if rec in st.writing {
        WriteKeepsRecords(st, rec);
      }
    case FailAppend(rec) =>
      ManagerUntouched(w, st, step);
      SequentialDepends(w, st, Next(w, st, step));
      if rec in st.writing {
        WriteKeepsRecords(st, rec);
      }
    case _ =>
      ManagerUntouched(w, st, step);
      RecordsUntouched(w, st, step);
      SequentialDepends(w, st, Next(w, st, step));
      RecordsDepend(st, Next(w, st, step));
  }

  lemma SequentialDepends(w: World, a: System, b: System)
    requires Sequential(w, a) && a.manager == b.manager && a.served == b.served && a.answers == b.answers
    ensures Sequential(w, b)
  {
  }

  lemma RecordsDepend(a: System, b: System)
    requires RecordsAccounted(a) && a.manager == b.manager
    requires a.file == b.file && a.writing == b.writing && a.unwritten == b.unwritten
    ensures RecordsAccounted(b)
  {
  }

  /**
   * In every interleaving the manager behaves as if its requests had come one after the other, and
   * the records on file, being written and given up are together exactly its journal.
   */
  lemma {:induction false} RunsAreSequential(w: World, steps: seq<Step>)
    requires Valid(w.policy.topology)
    ensures Sequential(w, After(w, steps))
    ensures RecordsAccounted(After(w, steps))
  {
    if steps != [] {
      hide Next, Sequential, RecordsAccounted;
      RunsAreSequential(w, steps[..|steps| - 1]);
      NextKeepsManager(w, After(w, steps[..|steps| - 1]), steps[|steps| - 1]);
    }
  }

  /** Because the file is written outside the lock, two pending records can reach it in either order. */
  lemma FileOrderIsFree(w: World, st: System, a: Record, b: Record)
    requires Valid(w.policy.topology) && multiset{a, b} <= st.writing
    ensures Next(w, Next(w, st, Append(a)), Append(b)).file == st.file + [a, b]
    ensures Next(w, Next(w, st, Append(b)), Append(a)).file == st.file + [b, a]
  {
    TwoAppends(w, st, a, b);
    assert multiset{a, b} == multiset{b, a};
    TwoAppends(w, st, b, a);
  }

  lemma TwoAppends(w: World, st: System, a: Record, b: Record)
    requires Valid(w.policy.topology) && multiset{a, b} <= st.writing
    ensures Next(w, Next(w, st, Append(a)), Append(b)).file == st.file + [a, b]
  {
    hide TakeOne, ScoreOne, DeliverOne, FailOne;
    assert st.writing[a] >= multiset{a, b}[a] && st.writing[b] >= multiset{a, b}[b];
    var first := AppendOne(st, a);
    assert Next(w, st, Append(a)) == first;
    assert b in first.writing;
    assert Next(w, first, Append(b)) == AppendOne(first, b);
  }

  // ------------------------------------------------------------------ where requests come from

  /** The request names the paths the healer resolves for its link, which some observation called for. */
  ghost predicate Issued(w: World, observed: seq<Event>, r: Request)
    requires Valid(w.policy.topology)
  {
    && Some(r.fromPath) == HealerPath(w.policy.topology, r.linkId)
    && Some(r.toPath) == ProtectionPath(w.policy.topology, r.linkId)
    && exists n: nat :: n < |Only(observed, r.linkId)| && Fires(w.policy, Only(observed, r.linkId), n)
  }

  /** The request comes from the healer or from another client. */
  ghost predicate Sourced(w: World, st: System, r: Request)
    requires Valid(w.policy.topology)
  {
    Issued(w, st.observed, r) || r in st.posted
  }

  ghost predicate AllIssued(w: World, st: System)
    requires Valid(w.policy.topology)
  {
    && st.links == Links(w.policy, st.observed)
    && (forall r :: r in st.inFlight ==> Sourced(w, st, r))
    && (forall i :: 0 <= i < |st.served| ==> Sourced(w, st, st.served[i]))
  }

  lemma IssuedStays(w: World, observed: seq<Event>, e: Event, r: Request)
    requires Valid(w.policy.topology) && Issued(w, observed, r)
    ensures Issued(w, observed + [e], r)
  {
    hide Fires;
    var own := Only(observed, r.linkId);
    OnlySnoc(observed, e, r.linkId);
    var n: nat :| n < |own| && Fires(w.policy, own, n);
    if e.obs.linkId == r.linkId {
      FiresLooksBack(w.policy, own, [e], n);
      assert n < |Only(observed + [e], r.linkId)|;
    }
  }

  /** A decision to reroute is one the specification prescribes for that link's own observations. */
  lemma EmissionIsIssued(w: World, observed: seq<Event>, e: Event)
    requires Valid(w.policy.topology)
    ensures var action := Decide(w.policy, LinkOf(Links(w.policy, observed), e.obs.linkId), e).1;
      action.RerouteEmitted? ==>
        Issued(w, observed + [e], action.payload) && Issued(w, observed + [e], GrpcCopy(action.payload))
  {
    hide Fires, Decide, Tracks;
    var linkId := e.obs.linkId;
    var own := Only(observed, linkId);
    LinksDoNotInterfere(w.policy, observed, linkId);
    LinkTracksTrace(w.policy, own);
    TracksOneMore(w.policy, own, e, LinkAfter(w.policy, own));
    OnlySnoc(observed, e, linkId);
    assert (own + [e])[|own|] == e;
    var action := Decide(w.policy, LinkOf(Links(w.policy, observed), linkId), e).1;
    if action.RerouteEmitted? {
      assert Fires(w.policy, Only(observed + [e], linkId), |own|);
    }
  }

  lemma ScoreKeepsIssued(w: World, st: System, at: nat, clockNow: real, clockStamp: real)
    requires Valid(w.policy.topology) && AllIssued(w, st) && at < |st.transit|
    ensures AllIssued(w, ScoreOne(w, st, at, clockNow, clockStamp))
  {
    hide Decide, Issued, LinkOf;
    var e := Event(ObservationOf(w, st.transit[at]), clockNow, clockStamp);
    var after := ScoreOne(w, st, at, clockNow, clockStamp);
    EmissionIsIssued(w, st.observed, e);
    assert (st.observed + [e])[..|st.observed|] == st.observed;
    forall r | r in after.inFlight
      ensures Sourced(w, after, r)
    {
      if r in st.inFlight && Issued(w, st.observed, r) {
        IssuedStays(w, st.observed, e, r);
      }
    }
    forall i | 0 <= i < |after.served|
      ensures Sourced(w, after, after.served[i])
    {
      if Issued(w, st.observed, st.served[i]) {
        IssuedStays(w, st.observed, e, st.served[i]);
      }
    }
  }

  /** The step brings no observation, and no request that was not there before except by posting it. */
  ghost predicate NothingIssued(a: System, b: System) {
    && b.observed == a.observed && b.links == a.links && a.posted <= b.posted
    && (forall r :: r in b.inFlight ==> r in a.inFlight || r in b.posted)
    && (b.served == a.served || exists r :: r in a.inFlight && b.served == a.served + [r])
  }

  lemma RequestSteps(st: System, r: Request)
    ensures r in st.inFlight ==> NothingIssued(st, DeliverOne(st, r)) && NothingIssued(st, CopyRequest(st, r))
    ensures NothingIssued(st, DropRequest(st, r)) && NothingIssued(st, PostOne(st, r))
  {
    hide Apply;
    assert r in PostOne(st, r).posted;
    if r in st.inFlight {
      assert DeliverOne(st, r).served == st.served + [r];
    }
  }

  lemma OtherSteps(w: World, st: System, sample: Sample, rec: Record)
    ensures NothingIssued(st, TakeOne(w, st, sample))
    ensures NothingIssued(st, AppendOne(st, rec)) && NothingIssued(st, FailOne(st, rec))
    ensures NothingIssued(st, st)
    ensures forall at: nat :: at < |st.transit| ==> NothingIssued(st, DropFrame(st, at))
  {
    hide FrameOf, Ingest.Accept, Ingest.WindowAt, Ingest.KeyOf, Without;
  }

  lemma HealerUntouched(w: World, st: System, step: Step)
    requires Valid(w.policy.topology) && !step.Score?
    ensures NothingIssued(st, Next(w, st, step))
  {
    hide NothingIssued, TakeOne, DropFrame, DeliverOne, CopyRequest, PostOne, DropRequest, AppendOne, FailOne;
    var sample := if step.TakeSample? then step.sample else Sample(0, "", "", 0.0, 0.0, 0.0, 0.0, 0.0);
    var r := if step.Post? || step.Deliver? || step.Duplicate? || step.LoseRequest? then step.request
             else Request("", "", "", "", 0.0, 0.0, 0.0, 0, 0);
    var rec := if step.Append? || step.FailAppend? then step.record else Record(r, true);
    RequestSteps(st, r);
    OtherSteps(w, st, sample, rec);
  }

  lemma NextKeepsIssued(w: World, st: System, step: Step)
    requires Valid(w.policy.topology) && AllIssued(w, st)
    ensures AllIssued(w, Next(w, st, step))
  {
    if step.Score? {
      hide AllIssued, ScoreOne;
      if step.at < |st.transit| {
        ScoreKeepsIssued(w, st, step.at, step.clockNow, step.clockStamp);
      }
    } else {
      hide Next, Issued, Links;
      HealerUntouched(w, st, step);
      StillPosted(st, Next(w, st, step));
    }
  }

  lemma StillPosted(a: System, b: System)
    requires NothingIssued(a, b)
    ensures forall r :: r in a.posted ==> r in b.posted
  {
  }

  /**
   * Every request ever sent or served names the healer's paths and was called for by observations, or
   * was posted by another client.
   */
  lemma {:induction false} RunsAreIssued(w: World, steps: seq<Step>)
    requires Valid(w.policy.topology)
    ensures AllIssued(w, After(w, steps))
  {
    hide Next, AllIssued, Start;
    if steps == [] {
      NoLinks(w);
    } else {
      RunsAreIssued(w, steps[..|steps| - 1]);
      NextKeepsIssued(w, After(w, steps[..|steps| - 1]), steps[|steps| - 1]);
    }
  }

  lemma NoLinks(w: World)
    requires Valid(w.policy.topology)
    ensures AllIssued(w, Start(w))
  {
  }

  /** No client but the healer has posted about the link. */
  ghost predicate Unposted(st: System, link: string) {
    forall r :: r in st.posted ==> r.linkId != link
  }

  lemma ServedOneRoute(w: World, steps: seq<Step>, link: string)
    requires Valid(w.policy.topology) && Unposted(After(w, steps), link)
    ensures OneRoute(After(w, steps).served, link)
  {
    hide After;
    RunsAreIssued(w, steps);
  }

  /** No client but the healer has posted about the links asking for the path. */
  ghost predicate AskersUnposted(st: System, path: string) {
    forall k :: 0 <= k < |st.served| && st.served[k].toPath == path ==> Unposted(st, st.served[k].linkId)
  }

  lemma ServedAskersOneRoute(w: World, steps: seq<Step>, path: string)
    requires Valid(w.policy.topology) && AskersUnposted(After(w, steps), path)
    ensures AskersHaveOneRoute(Init(w.policy.topology), After(w, steps).served, path)
  {
    hide After, OneRoute, Unposted;
    var st := After(w, steps);
    forall k | 0 <= k < |st.served| && Asks(Init(w.policy.topology), st.served[k], path)
      ensures OneRoute(st.served, st.served[k].linkId)
    {
      ServedOneRoute(w, steps, st.served[k].linkId);
    }
  }

  // ------------------------------------------------------------------ what holds in every interleaving

  lemma StartIsFresh(w: World)
    ensures Fresh(Init(w.policy.topology))
    ensures Init(w.policy.topology).paths.Keys == w.policy.topology.specs.Keys
  {
  }

  /**
   * Whatever is lost, reordered or duplicated, and whatever others post about other links, all answers
   * about a link only the healer asks for carry the same accepted flag, and they cost one unit of
   * capacity if they are acceptances and nothing otherwise.
   */
  lemma AnswersAgree(w: World, steps: seq<Step>, i: nat, j: nat)
    requires Valid(w.policy.topology)
    requires i < |After(w, steps).served| && j < |After(w, steps).served|
    requires After(w, steps).served[i].linkId == After(w, steps).served[j].linkId
    requires Unposted(After(w, steps), After(w, steps).served[i].linkId)
    ensures |After(w, steps).answers| == |After(w, steps).served|
    ensures After(w, steps).answers[i].accepted == After(w, steps).answers[j].accepted
    ensures CountLink(After(w, steps).manager.reroutes, After(w, steps).served[i].linkId)
            == if After(w, steps).answers[i].accepted then 1 else 0
  {
    hide After, Run, Init;
    RunsAreSequential(w, steps);
    ServedOneRoute(w, steps, After(w, steps).served[i].linkId);
    StartIsFresh(w);
    DuplicatesAgree(Init(w.policy.topology), After(w, steps).served, i, j);
  }

  /** In every interleaving a path carries exactly the first links whose requests reached the lock. */
  lemma RidersAreFirstServed(w: World, steps: seq<Step>, path: string)
    requires Valid(w.policy.topology) && path in w.policy.topology.specs
    requires AskersUnposted(After(w, steps), path)
    ensures path in Init(w.policy.topology).paths
    ensures Riders(After(w, steps).manager.reroutes, path)
            == Served(Init(w.policy.topology), After(w, steps).served, path)
  {
    hide After, Run, Init, Riders, Served;
    RunsAreSequential(w, steps);
    ServedAskersOneRoute(w, steps, path);
    StartIsFresh(w);
    FirstComeFirstServed(Init(w.policy.topology), After(w, steps).served, path);
  }

  /** Every protection entry of the shared topology names a path with the protection role. */
  ghost predicate ProtectionPathsExist(c: Config) {
    forall l :: l in c.protection ==>
      c.protection[l] in c.specs && c.specs[c.protection[l]].role == Some("protection")
  }

  /** With a well-formed topology, a request is refused only because its link came too late for the capacity. */
  lemma OnlyCapacityRefuses(w: World, steps: seq<Step>, i: nat)
    requires Valid(w.policy.topology) && ProtectionPathsExist(w.policy.topology)
    requires i < |After(w, steps).served|
    requires Unposted(After(w, steps), After(w, steps).served[i].linkId)
    requires AskersUnposted(After(w, steps), After(w, steps).served[i].toPath)
    ensures |After(w, steps).answers| == |After(w, steps).served|
    ensures After(w, steps).served[i].toPath in Init(w.policy.topology).paths
    ensures After(w, steps).answers[i].accepted <==>
            After(w, steps).served[i].linkId
            in Served(Init(w.policy.topology), After(w, steps).served, After(w, steps).served[i].toPath)
  {
    hide After, Run, Served;
    var st := After(w, steps);
    RunsAreSequential(w, steps);
    RunsAreIssued(w, steps);
    ServedOneRoute(w, steps, st.served[i].linkId);
    ServedAskersOneRoute(w, steps, st.served[i].toPath);
    StartIsFresh(w);
    AcceptedIffEarlyEnough(Init(w.policy.topology), st.served, i);
  }

  /** Other clients move traffic off working paths and onto protection paths only, as the healer does. */
  ghost predicate PostsAsHealer(w: World, st: System) {
    var start := Init(w.policy.topology);
    forall r :: r in st.posted && Known(start, r) ==>
      start.paths[r.fromPath].role == "working" && start.paths[r.toPath].role == "protection"
  }

  /** With a well-formed topology, status always tells what happened to a path. */
  lemma StatusTellsUse(w: World, steps: seq<Step>, path: string)
    requires Valid(w.policy.topology) && ProtectionPathsExist(w.policy.topology) && path in w.policy.topology.specs
    requires PostsAsHealer(w, After(w, steps))
    ensures path in After(w, steps).manager.paths
    ensures var p := After(w, steps).manager.paths[path];
      && (w.policy.topology.specs[path].role == Some("protection") ==>
            p.status == if p.capacity == p.capacityTotal then Standby else Active)
      && (w.policy.topology.specs[path].role != Some("protection") ==>
            (p.status == Down <==>
              exists k :: 0 <= k < |After(w, steps).manager.reroutes|
                       && After(w, steps).manager.reroutes[k].request.fromPath == path))
  {
    hide After, Run;
    var st := After(w, steps);
    RunsAreSequential(w, steps);
    RunsAreIssued(w, steps);
    StatusMeansUse(w.policy.topology, st.served, path);
  }

  /** No traffic moves unless its link's own observations called for it or another client posted the request. */
  lemma MovesWereCalledFor(w: World, steps: seq<Step>, k: nat)
    requires Valid(w.policy.topology) && k < |After(w, steps).manager.reroutes|
    ensures Sourced(w, After(w, steps), After(w, steps).manager.reroutes[k].request)
  {
    hide After, Run, Init, Sourced;
    RunsAreSequential(w, steps);
    RunsAreIssued(w, steps);
    StartIsFresh(w);
    JournalTargetsKnown(Init(w.policy.topology), After(w, steps).served);
  }

  // ------------------------------------------------------------------ end to end

  function SamplesOf(samples: seq<Sample>, linkId: string): nat {
    if samples == [] then 0
    else SamplesOf(samples[..|samples| - 1], linkId) + if samples[|samples| - 1].linkId == linkId then 1 else 0
  }

  function FramesOf(frames: seq<Frame>, linkId: string): nat {
    if frames == [] then 0
    else FramesOf(frames[..|frames| - 1], linkId) + if frames[|frames| - 1].linkId == linkId then 1 else 0
  }

  lemma {:induction false} FramesOfConcat(a: seq<Frame>, b: seq<Frame>, linkId: string)
    ensures FramesOf(a + b, linkId) == FramesOf(a, linkId) + FramesOf(b, linkId)
  {
    if b == [] {
      assert a + b == a;
    } else {
      FramesOfConcat(a, b[..|b| - 1], linkId);
      assert (a + b)[..|a + b| - 1] == a + b[..|b| - 1];
    }
  }

  lemma FramesWithout(frames: seq<Frame>, at: nat, linkId: string)
    requires at < |frames|
    ensures FramesOf(Without(frames, at), linkId)
            == FramesOf(frames, linkId) - if frames[at].linkId == linkId then 1 else 0
  {
    FramesOfConcat(frames[..at], frames[at + 1..], linkId);
    assert frames == (frames[..at] + [frames[at]]) + frames[at + 1..];
    FramesOfConcat(frames[..at] + [frames[at]], frames[at + 1..], linkId);
    FramesOfConcat(frames[..at], [frames[at]], linkId);
  }

  lemma {:induction false} SourceWithinLink(samples: seq<Sample>, linkId: string, channelId: string)
    ensures |Ingest.Only(samples, linkId, channelId)| <= SamplesOf(samples, linkId)
  {
    if samples != [] {
      SourceWithinLink(samples[..|samples| - 1], linkId, channelId);
    }
  }

  /** Frames of a link scored or still travelling never exceed its samples beyond the first windowN - 1. */
  ghost predicate FramesPaid(w: World, st: System, linkId: string) {
    && st.windows == Ingest.Windows(st.accepted, w.windowN)
    && (Ingest.Unconfusable(st.accepted, linkId) ==>
          |Only(st.observed, linkId)| + FramesOf(st.transit, linkId)
          <= Max(0, SamplesOf(st.accepted, linkId) + 1 - w.windowN))
  }

  lemma UnconfusableFront(samples: seq<Sample>, s: Sample, linkId: string)
    requires Ingest.Unconfusable(samples + [s], linkId)
    ensures Ingest.Unconfusable(samples, linkId)
  {
    assert forall i :: 0 <= i < |samples| ==> (samples + [s])[i] == samples[i];
  }

  /** A full window of a link takes windowN samples of that very link. */
  lemma FullWindowPaid(accepted: seq<Sample>, n: nat)
    requires accepted != [] && n >= 1
    requires Ingest.Unconfusable(accepted, accepted[|accepted| - 1].linkId)
    ensures var s := accepted[|accepted| - 1];
      var window := Ingest.WindowAt(Ingest.Windows(accepted, n), Ingest.KeyOf(s));
      |window| <= SamplesOf(accepted, s.linkId) && window != [] && window[|window| - 1] == s
  {
    hide Ingest.Windows, Ingest.WindowAt, Ingest.Unconfusable, Ingest.Only;
    var s := accepted[|accepted| - 1];
    Ingest.UnconfusableOwnsKey(accepted, s.linkId, s.channelId);
    Ingest.WindowHoldsNewest(accepted, n, s.linkId, s.channelId);
    Ingest.NewestLast(accepted, n);
    SourceWithinLink(accepted, s.linkId, s.channelId);
  }

  lemma TakeKeepsPaid(w: World, st: System, sample: Sample, linkId: string)
    requires w.windowN >= 1 && FramesPaid(w, st, linkId)
    ensures FramesPaid(w, TakeOne(w, st, sample), linkId)
  {
    hide Ingest.Unconfusable, Ingest.WindowAt, Ingest.KeyOf, Ingest.Accept, Only, FramesOf, FrameOf;
    var accepted := st.accepted + [sample];
    TakeParts(w, st, sample);
    if Ingest.Unconfusable(accepted, linkId) {
      UnconfusableFront(st.accepted, sample, linkId);
      NewestFrameLink(w, st, sample, linkId);
      assert accepted[..|accepted| - 1] == st.accepted;
      if sample.linkId == linkId {
        FullWindowPaid(accepted, w.windowN);
      }
    }
  }

  lemma TakeParts(w: World, st: System, sample: Sample)
    requires st.windows == Ingest.Windows(st.accepted, w.windowN)
    ensures var after := TakeOne(w, st, sample);
      && after.accepted == st.accepted + [sample]
      && after.windows == Ingest.Windows(st.accepted + [sample], w.windowN)
      && after.observed == st.observed
  {
    hide Ingest.Accept, Ingest.WindowAt, FrameOf;
    assert (st.accepted + [sample])[..|st.accepted|] == st.accepted;
  }

  /** Only a sample of the link can add a frame of the link. */
  lemma NewestFrameLink(w: World, st: System, sample: Sample, linkId: string)
    requires w.windowN >= 1 && st.windows == Ingest.Windows(st.accepted, w.windowN)
    ensures var after := TakeOne(w, st, sample);
      var window := Ingest.WindowAt(after.windows, Ingest.KeyOf(sample));
      FramesOf(after.transit, linkId) == FramesOf(st.transit, linkId)
        + if |window| == w.windowN && sample.linkId == linkId then 1 else 0
  {
    hide Ingest.WindowAt, Ingest.Accept, Ingest.KeyOf, Ingest.Windows;
    var after := TakeOne(w, st, sample);
    TakeParts(w, st, sample);
    Ingest.NewestLast(after.accepted, w.windowN);
    var window := Ingest.WindowAt(after.windows, Ingest.KeyOf(sample));
    if |window| == w.windowN {
      FramesOfConcat(st.transit, [FrameOf(w.lib, window)], linkId);
    }
  }

  lemma ScoreKeepsPaid(w: World, st: System, at: nat, clockNow: real, clockStamp: real, linkId: string)
    requires Valid(w.policy.topology) && FramesPaid(w, st, linkId) && at < |st.transit|
    ensures FramesPaid(w, ScoreOne(w, st, at, clockNow, clockStamp), linkId)
  {
    hide Decide, LinkOf, FramesOf, Ingest.Windows, Ingest.Unconfusable;
    var e := Event(ObservationOf(w, st.transit[at]), clockNow, clockStamp);
    OnlySnoc(st.observed, e, linkId);
    FramesWithout(st.transit, at, linkId);
  }

  /** The step brings neither samples nor observations, and at most loses frames. */
  ghost predicate OnlyLosesFrames(a: System, b: System, linkId: string) {
    && b.accepted == a.accepted && b.windows == a.windows && b.observed == a.observed
    && FramesOf(b.transit, linkId) <= FramesOf(a.transit, linkId)
  }

  lemma DropLosesFrames(st: System, at: nat, linkId: string)
    requires at < |st.transit|
    ensures OnlyLosesFrames(st, DropFrame(st, at), linkId)
  {
    hide FramesOf, Without;
    FramesWithout(st.transit, at, linkId);
  }

  lemma OthersKeepFrames(st: System, r: Request, rec: Record, linkId: string)
    ensures OnlyLosesFrames(st, DeliverOne(st, r), linkId)
    ensures OnlyLosesFrames(st, CopyRequest(st, r), linkId) && OnlyLosesFrames(st, DropRequest(st, r), linkId)
    ensures OnlyLosesFrames(st, PostOne(st, r), linkId)
    ensures OnlyLosesFrames(st, AppendOne(st, rec), linkId) && OnlyLosesFrames(st, FailOne(st, rec), linkId)
    ensures OnlyLosesFrames(st, st, linkId)
  {
    hide Apply, FramesOf;
  }

  lemma FramesUntouched(w: World, st: System, step: Step, linkId: string)
    requires Valid(w.policy.topology) && !step.TakeSample? && !step.Score?
    ensures OnlyLosesFrames(st, Next(w, st, step), linkId)
  {
    hide OnlyLosesFrames, DropFrame, DeliverOne, CopyRequest, PostOne, DropRequest, AppendOne, FailOne;
    var r := if step.Post? || step.Deliver? || step.Duplicate? || step.LoseRequest? then step.request
             else Request("", "", "", "", 0.0, 0.0, 0.0, 0, 0);
    var rec := if step.Append? || step.FailAppend? then step.record else Record(r, true);
    OthersKeepFrames(st, r, rec, linkId);
    if step.LoseFrame? && step.at < |st.transit| {
      DropLosesFrames(st, step.at, linkId);
    }
  }

  lemma NextKeepsPaid(w: World, st: System, step: Step, linkId: string)
    requires Valid(w.policy.topology) && w.windowN >= 1 && FramesPaid(w, st, linkId)
    ensures FramesPaid(w, Next(w, st, step), linkId)
  {
    if step.TakeSample? || step.Score? {
      hide FramesPaid, TakeOne, ScoreOne;
      if step.TakeSample? {
        TakeKeepsPaid(w, st, step.sample, linkId);
      } else if step.at < |st.transit| {
        ScoreKeepsPaid(w, st, step.at, step.clockNow, step.clockStamp, linkId);
      }
    } else {
      hide Next, FramesOf, Ingest.Windows, Ingest.Unconfusable;
      FramesUntouched(w, st, step, linkId);
    }
  }

  lemma {:induction false} RunsArePaid(w: World, steps: seq<Step>, linkId: string)
    requires Valid(w.policy.topology) && w.windowN >= 1
    ensures FramesPaid(w, After(w, steps), linkId)
  {
    if steps != [] {
      hide Next, FramesPaid;
      RunsArePaid(w, steps[..|steps| - 1], linkId);
      NextKeepsPaid(w, After(w, steps[..|steps| - 1]), steps[|steps| - 1], linkId);
    }
  }

  lemma FiringNeedsStreak(p: Policy, trace: seq<Event>, n: nat)
    requires Valid(p.topology) && n < |trace| && Fires(p, trace, n)
    ensures |trace| >= Needed(p)
  {
  }

  /**
   * For any scorer, channels, losses and interleaving: while a link cannot be confused with
   * another, no request of the healer's about it exists before windowN + streak - 1 of its samples were accepted.
   */
  lemma NoRequestTooEarly(w: World, steps: seq<Step>, r: Request)
    requires Valid(w.policy.topology) && w.windowN >= 1
    requires Ingest.Unconfusable(After(w, steps).accepted, r.linkId)
    requires (r in After(w, steps).inFlight || r in After(w, steps).served) && r !in After(w, steps).posted
    ensures SamplesOf(After(w, steps).accepted, r.linkId) >= w.windowN + Needed(w.policy) - 1
  {
    hide After, Fires, Only, Ingest.Unconfusable;
    var st := After(w, steps);
    RunsAreIssued(w, steps);
    RunsArePaid(w, steps, r.linkId);
    var own := Only(st.observed, r.linkId);
    var n: nat :| n < |own| && Fires(w.policy, own, n);
    FiringNeedsStreak(w.policy, own, n);
  }

  /** With the shipped window length and thresholds that is 62 samples. */
  lemma ShippedLowerBound(w: World, steps: seq<Step>, r: Request)
    requires Valid(w.policy.topology) && w.windowN == WINDOW_N && w.policy.thresholds.consecutive == 3
    requires Ingest.Unconfusable(After(w, steps).accepted, r.linkId)
    requires (r in After(w, steps).inFlight || r in After(w, steps).served) && r !in After(w, steps).posted
    ensures SamplesOf(After(w, steps).accepted, r.linkId) >= 62
  {
    NoRequestTooEarly(w, steps, r);
  }
}
