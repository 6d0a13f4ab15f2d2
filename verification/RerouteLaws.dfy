/** What every run of the path manager keeps, whatever requests arrive and in whatever order. */
module RerouteLaws {
  import opened Basics
  import opened Topology
  import opened PathManager

  // ------------------------------------------------------------------ one request

  /** When a request is a fresh move, and what it then leaves behind. */
  lemma OneRequest(s: State, r: Request)
    ensures Apply(s, r).response.accepted
            <==> Known(s, r) && (Rides(s, r) || s.paths[r.toPath].capacity > 0)
    ensures Apply(s, r).logged.Some? <==> Known(s, r) && !Rides(s, r) && s.paths[r.toPath].capacity > 0
    ensures Apply(s, r).logged.Some? ==>
      Apply(s, r).state == Move(s, r) && Apply(s, r).logged == Some(Record(r, true))
    ensures Apply(s, r).logged == None ==> Apply(s, r).state == s
  {
  }

  lemma OneMove(s: State, r: Request)
    requires Known(s, r)
    ensures Move(s, r).reroutes == s.reroutes + [Record(r, true)]
    ensures Move(s, r).reroutes[..|s.reroutes|] == s.reroutes
    ensures Move(s, r).moved == s.moved[r.linkId := r.toPath]
    ensures Move(s, r).paths.Keys == s.paths.Keys
    ensures forall p :: p in s.paths ==>
      Move(s, r).paths[p].capacity == s.paths[p].capacity - if p == r.toPath then 1 else 0
  {
  }

  /** What each kind of request is told, word for word, checked in this order. */
  lemma AnswerWords(s: State, r: Request)
    ensures var answer := Apply(s, r).response;
      && (r.fromPath !in s.paths ==> !answer.accepted && answer.message.Text() == "unknown from_path " + r.fromPath)
      && (r.fromPath in s.paths && r.toPath !in s.paths ==>
            !answer.accepted && answer.message.Text() == "unknown to_path " + r.toPath)
      && (Known(s, r) && r.linkId in s.moved && s.moved[r.linkId] == r.toPath ==>
            answer.accepted && answer.message.Text() == r.linkId + " already rides " + r.toPath)
      && (Known(s, r) && !(r.linkId in s.moved && s.moved[r.linkId] == r.toPath) ==>
            && (s.paths[r.toPath].capacity <= 0 ==>
                  !answer.accepted && answer.message.Text() == r.toPath + " has no spare capacity")
            && (s.paths[r.toPath].capacity > 0 ==>
                  answer.accepted && answer.message.Text() == "traffic moved " + r.fromPath + " -> " + r.toPath))
  {
  }

  /** The last request of a run either changed nothing or was a move. */
  lemma LastRequest(start: State, rs: seq<Request>)
    requires rs != []
    ensures var s, r := Run(start, rs[..|rs| - 1]), rs[|rs| - 1];
      && (Apply(s, r).logged.Some? <==> Known(s, r) && !Rides(s, r) && s.paths[r.toPath].capacity > 0)
      && (Apply(s, r).logged == None ==> Run(start, rs) == s)
      && (Apply(s, r).logged.Some? ==>
            && Run(start, rs) == Move(s, r)
            && Run(start, rs).reroutes == s.reroutes + [Record(r, true)]
            && Run(start, rs).reroutes[..|s.reroutes|] == s.reroutes
            && Run(start, rs).moved == s.moved[r.linkId := r.toPath])
  {
    hide Apply, Move;
    var s, r := Run(start, rs[..|rs| - 1]), rs[|rs| - 1];
    OneRequest(s, r);
    if Known(s, r) {
      OneMove(s, r);
    }
  }

  // ------------------------------------------------------------------ reading a journal

  function CountTo(journal: seq<Record>, path: string): nat {
    if journal == [] then 0
    else CountTo(journal[..|journal| - 1], path)
         + if journal[|journal| - 1].request.toPath == path then 1 else 0
  }

  function CountLink(journal: seq<Record>, link: string): nat {
    if journal == [] then 0
    else CountLink(journal[..|journal| - 1], link)
         + if journal[|journal| - 1].request.linkId == link then 1 else 0
  }

  /** The path the link was last moved to. */
  function LastTarget(journal: seq<Record>, link: string): Option<string> {
    if journal == [] then None
    else
      var last := journal[|journal| - 1].request;
      if last.linkId == link then Some(last.toPath) else LastTarget(journal[..|journal| - 1], link)
  }

  /** A path's status is set by the last record naming it; leaving a path beats arriving on it. */
  function StatusAfter(initial: Status, journal: seq<Record>, path: string): Status {
    if journal == [] then initial
    else
      var last := journal[|journal| - 1].request;
      if last.fromPath == path then Down
      else if last.toPath == path then Active
      else StatusAfter(initial, journal[..|journal| - 1], path)
  }

  // ------------------------------------------------------------------ capacity and journal

  /** The journal alone determines everything else in the state. */
  ghost predicate Explains(start: State, s: State) {
    && s.paths.Keys == start.paths.Keys
    && (forall p :: p in start.paths ==>
          s.paths[p] == start.paths[p].(
            capacity := start.paths[p].capacity - CountTo(s.reroutes, p),
            status := StatusAfter(start.paths[p].status, s.reroutes, p)))
    && (forall l :: l in s.moved <==> LastTarget(s.reroutes, l).Some?)
    && (forall l :: l in s.moved ==> LastTarget(s.reroutes, l) == Some(s.moved[l]))
  }

  ghost predicate Fresh(s: State) {
    s.moved == map[] && s.reroutes == []
  }

  lemma JournalOneMore(journal: seq<Record>, last: Record, path: string, link: string, initial: Status)
    ensures var more, r := journal + [last], last.request;
      && CountTo(more, path) == CountTo(journal, path) + (if r.toPath == path then 1 else 0)
      && LastTarget(more, link) == (if r.linkId == link then Some(r.toPath) else LastTarget(journal, link))
      && StatusAfter(initial, more, path)
         == (if r.fromPath == path then Down else if r.toPath == path then Active
             else StatusAfter(initial, journal, path))
  {
    assert (journal + [last])[..|journal|] == journal;
  }

  lemma MoveExplained(start: State, s: State, r: Request)
    requires Explains(start, s) && Known(s, r)
    ensures Explains(start, Move(s, r))
  {
    hide CountTo, LastTarget, StatusAfter;
    var t := Move(s, r);
    forall p | p in start.paths
      ensures t.paths[p] == start.paths[p].(
        capacity := start.paths[p].capacity - CountTo(t.reroutes, p),
        status := StatusAfter(start.paths[p].status, t.reroutes, p))
    {
      JournalOneMore(s.reroutes, Record(r, true), p, "", start.paths[p].status);
    }
    forall l
      ensures l in t.moved <==> LastTarget(t.reroutes, l).Some?
      ensures l in t.moved ==> LastTarget(t.reroutes, l) == Some(t.moved[l])
    {
      JournalOneMore(s.reroutes, Record(r, true), "", l, Active);
    }
  }

  lemma NothingExplained(start: State)
    requires Fresh(start)
    ensures Explains(start, start)
  {
  }

  lemma {:induction false} JournalExplainsState(start: State, rs: seq<Request>)
    requires Fresh(start)
    ensures Explains(start, Run(start, rs))
  {
    hide Apply, Move, Explains;
    if rs == [] {
      NothingExplained(start);
    } else {
      var front, r := rs[..|rs| - 1], rs[|rs| - 1];
      JournalExplainsState(start, front);
      LastRequest(start, rs);
      var s := Run(start, front);
      if Apply(s, r).logged.Some? {
        MoveExplained(start, s, r);
      }
    }
  }

  lemma ExplainedCapacity(start: State, s: State, path: string)
    requires Explains(start, s) && path in start.paths
    ensures s.paths.Keys == start.paths.Keys
    ensures s.paths[path].capacity == start.paths[path].capacity - CountTo(s.reroutes, path)
  {
  }

  /** Capacity is never negative unless the topology file says so, and each unit spent has one record. */
  lemma {:induction false} CapacityConserved(start: State, rs: seq<Request>, path: string)
    requires Fresh(start) && path in start.paths
    ensures Run(start, rs).paths.Keys == start.paths.Keys
    ensures start.paths[path].capacity - Run(start, rs).paths[path].capacity
            == CountTo(Run(start, rs).reroutes, path)
    ensures CountTo(Run(start, rs).reroutes, path) <= Max(0, start.paths[path].capacity)
  {
    hide Apply, Move, Explains;
    JournalExplainsState(start, rs);
    ExplainedCapacity(start, Run(start, rs), path);
    if rs != [] {
      CapacityConserved(start, rs[..|rs| - 1], path);
      LastRequest(start, rs);
    }
  }

  /** Capacity only falls and the journal only grows as a run goes on. */
  lemma {:induction false} RunMonotone(start: State, rs: seq<Request>, more: seq<Request>)
    ensures Run(start, rs).paths.Keys == Run(start, rs + more).paths.Keys
    ensures Run(start, rs).reroutes <= Run(start, rs + more).reroutes
    ensures forall p :: p in Run(start, rs).paths ==>
      Run(start, rs + more).paths[p].capacity <= Run(start, rs).paths[p].capacity
    decreases |more|
  {
    hide Apply, Move, Answer;
    if more == [] {
      assert rs + more == rs;
    } else {
      var front, r := more[..|more| - 1], more[|more| - 1];
      RunMonotone(start, rs, front);
      assert rs + more == (rs + front) + [r];
      RunSnoc(start, rs + front, r);
      var s := Run(start, rs + front);
      OneRequest(s, r);
      if Known(s, r) {
        OneMove(s, r);
      }
    }
  }

  function TotalCapacity(start: State, names: seq<string>): nat
    requires forall n :: n in names ==> n in start.paths
  {
    if names == [] then 0
    else TotalCapacity(start, names[1..]) + Max(0, start.paths[names[0]].capacity)
  }

  function CountToAny(journal: seq<Record>, names: seq<string>): nat {
    if names == [] then 0 else CountToAny(journal, names[1..]) + CountTo(journal, names[0])
  }

  lemma {:induction false} CountToAnySnoc(journal: seq<Record>, last: Record, names: seq<string>)
    requires forall i, j :: 0 <= i < j < |names| ==> names[i] != names[j]
    ensures CountToAny(journal + [last], names)
            == CountToAny(journal, names) + if last.request.toPath in names then 1 else 0
  {
    if names != [] {
      CountToAnySnoc(journal, last, names[1..]);
      assert (journal + [last])[..|journal|] == journal;
    }
  }

  lemma {:induction false} EveryRecordCounted(journal: seq<Record>, names: seq<string>)
    requires forall i, j :: 0 <= i < j < |names| ==> names[i] != names[j]
    requires forall k :: 0 <= k < |journal| ==> journal[k].request.toPath in names
    ensures |journal| == CountToAny(journal, names)
  {
    if journal == [] {
      CountToAnyOfNothing(names);
    } else {
      var front := journal[..|journal| - 1];
      EveryRecordCounted(front, names);
      CountToAnySnoc(front, journal[|journal| - 1], names);
      assert front + [journal[|journal| - 1]] == journal;
    }
  }

  lemma {:induction false} CountToAnyOfNothing(names: seq<string>)
    ensures CountToAny([], names) == 0
  {
    if names != [] {
      CountToAnyOfNothing(names[1..]);
    }
  }

  lemma {:induction false} CountsWithinTotals(start: State, rs: seq<Request>, names: seq<string>)
    requires Fresh(start) && forall n :: n in names ==> n in start.paths
    ensures CountToAny(Run(start, rs).reroutes, names) <= TotalCapacity(start, names)
  {
    if names != [] {
      CountsWithinTotals(start, rs, names[1..]);
      CapacityConserved(start, rs, names[0]);
    }
  }

  lemma SamePaths(start: State, rs: seq<Request>)
    ensures Run(start, rs).paths.Keys == start.paths.Keys
  {
    RunMonotone(start, [], rs);
    assert [] + rs == rs;
  }

  /** Accepted records name paths the topology knows. */
  lemma {:induction false} JournalTargetsKnown(start: State, rs: seq<Request>)
    requires Fresh(start)
    ensures forall k :: 0 <= k < |Run(start, rs).reroutes| ==>
      && Run(start, rs).reroutes[k].accepted
      && Known(start, Run(start, rs).reroutes[k].request)
      && Run(start, rs).reroutes[k].request in rs
  {
    if rs != [] {
      hide Apply, Move, Run;
      var front := rs[..|rs| - 1];
      JournalTargetsKnown(start, front);
      LastRequest(start, rs);
      SamePaths(start, front);
      assert rs == front + [rs[|rs| - 1]];
    }
  }

  /** Over any run the number of accepted moves is bounded by the capacity configured in the file. */
  lemma JournalBounded(c: Config, rs: seq<Request>)
    requires Valid(c)
    ensures |Run(Init(c), rs).reroutes| <= TotalCapacity(Init(c), c.names)
  {
    JournalTargetsKnown(Init(c), rs);
    EveryRecordCounted(Run(Init(c), rs).reroutes, c.names);
    CountsWithinTotals(Init(c), rs, c.names);
  }

  // ------------------------------------------------------------------ replay

  function Requests(journal: seq<Record>): (rs: seq<Request>)
    ensures |rs| == |journal|
    ensures forall i :: 0 <= i < |rs| ==> rs[i] == journal[i].request
  {
    seq(|journal|, i requires 0 <= i < |journal| => journal[i].request)
  }

  /** Fed back one by one, every record is accepted again as a fresh move. */
  ghost predicate ReplaysAsMoves(start: State, journal: seq<Record>) {
    forall i :: 0 <= i < |journal| ==>
      Apply(Run(start, Requests(journal[..i])), journal[i].request).logged == Some(journal[i])
  }

  lemma ReplayOneMore(start: State, journal: seq<Record>, last: Record)
    requires ReplaysAsMoves(start, journal)
    requires Apply(Run(start, Requests(journal)), last.request).logged == Some(last)
    ensures ReplaysAsMoves(start, journal + [last])
    ensures Run(start, Requests(journal + [last])) == Apply(Run(start, Requests(journal)), last.request).state
  {
    hide Apply, Run;
    var longer := journal + [last];
    assert longer[..|journal|] == journal;
    forall i | 0 <= i < |longer|
      ensures Apply(Run(start, Requests(longer[..i])), longer[i].request).logged == Some(longer[i])
    {
      if i < |journal| {
        assert longer[..i] == journal[..i];
      }
    }
    assert Requests(longer) == Requests(journal) + [last.request];
    RunSnoc(start, Requests(journal), last.request);
  }

  ghost predicate Rebuilt(start: State, s: State) {
    Run(start, Requests(s.reroutes)) == s && ReplaysAsMoves(start, s.reroutes)
  }

  lemma RebuiltStep(start: State, s: State, r: Request)
    requires Rebuilt(start, s)
    ensures Rebuilt(start, Apply(s, r).state)
  {
    hide Apply, Move, Run, ReplaysAsMoves, Requests;
    OneRequest(s, r);
    if Apply(s, r).logged.Some? {
      OneMove(s, r);
      ReplayOneMore(start, s.reroutes, Record(r, true));
    }
  }

  /** Replaying the journal alone rebuilds the whole state: refused and repeated requests leave no trace. */
  lemma {:induction false} ReplayRebuildsState(start: State, rs: seq<Request>)
    requires Fresh(start)
    ensures Rebuilt(start, Run(start, rs))
  {
    if rs != [] {
      ReplayRebuildsState(start, rs[..|rs| - 1]);
      RebuiltStep(start, Run(start, rs[..|rs| - 1]), rs[|rs| - 1]);
    }
  }

  // ------------------------------------------------------------------ repeated requests

  /**
   * A request for known paths is answered "already rides", at no cost, exactly when the last
   * accepted move of its link went to the same place.
   */
  lemma RepeatIsFreeIff(start: State, rs: seq<Request>, r: Request)
    requires Fresh(start) && Known(start, r)
    ensures Apply(Run(start, rs), r).response.accepted && Apply(Run(start, rs), r).logged == None
            <==> LastTarget(Run(start, rs).reroutes, r.linkId) == Some(r.toPath)
  {
    JournalExplainsState(start, rs);
  }

  /** Every request for the link names the same two paths; other links may do as they like. */
  ghost predicate OneRoute(rs: seq<Request>, link: string) {
    forall i, j :: 0 <= i < |rs| && 0 <= j < |rs| && rs[i].linkId == rs[j].linkId == link ==>
      rs[i].fromPath == rs[j].fromPath && rs[i].toPath == rs[j].toPath
  }

  lemma OneRouteFront(rs: seq<Request>, r: Request, link: string)
    requires OneRoute(rs + [r], link)
    ensures OneRoute(rs, link)
  {
    assert forall k :: 0 <= k < |rs| ==> (rs + [r])[k] == rs[k];
  }

  lemma MovedCameFromARequest(start: State, rs: seq<Request>, link: string)
    requires Fresh(start) && link in Run(start, rs).moved
    ensures exists k :: 0 <= k < |rs| && rs[k].linkId == link && rs[k].toPath == Run(start, rs).moved[link]
    decreases |rs|
  {
    var front, r := rs[..|rs| - 1], rs[|rs| - 1];
    if Run(start, rs).moved == Run(start, front).moved || link != r.linkId {
      MovedCameFromARequest(start, front, link);
    }
  }

  /** A request that was refused once is refused at every later point if its link has one route. */
  lemma RefusalIsFinal(start: State, rs: seq<Request>, i: nat, r: Request)
    requires Fresh(start) && i < |rs| && OneRoute(rs + [r], r.linkId)
    requires rs[i].linkId == r.linkId && r.linkId !in Run(start, rs).moved
    requires !Answer(start, rs, i).accepted
    ensures !Apply(Run(start, rs), r).response.accepted
  {
    hide Apply, Run;
    assert (rs + [r])[i] == rs[i] && (rs + [r])[|rs|] == r;
    RunMonotone(start, rs[..i], rs[i..]);
    assert rs[..i] + rs[i..] == rs;
    OneRequest(Run(start, rs[..i]), rs[i]);
    OneRequest(Run(start, rs), r);
  }

  /** If its link has one route, a request was accepted exactly when the link has moved by the end of the run. */
  lemma {:induction false} AcceptedIffMoved(start: State, rs: seq<Request>, i: nat)
    requires Fresh(start) && i < |rs| && OneRoute(rs, rs[i].linkId)
    ensures Answer(start, rs, i).accepted <==> rs[i].linkId in Run(start, rs).moved
    decreases |rs|
  {
    var front, r := rs[..|rs| - 1], rs[|rs| - 1];
    assert rs == front + [r];
    RunSnoc(start, front, r);
    OneRouteFront(front, r, rs[i].linkId);
    hide Apply, Move, Run, OneRoute;
    var s := Run(start, front);
    OneRequest(s, r);
    LastRequest(start, rs);
    if i < |front| {
      AcceptedIffMoved(start, front, i);
      if !Answer(start, front, i).accepted && r.linkId == rs[i].linkId {
        RefusalIsFinal(start, front, i, r);
      }
    } else if r.linkId in s.moved {
      MovedCameFromARequest(start, front, r.linkId);
      JournalExplainsState(start, front);
      JournalHasRoute(start, front, r);
    }
  }

  /** A link with one route that has moved rides where it asks to go, over known paths. */
  lemma JournalHasRoute(start: State, front: seq<Request>, r: Request)
    requires Fresh(start) && OneRoute(front + [r], r.linkId) && r.linkId in Run(start, front).moved
    ensures Known(Run(start, front), r) && Rides(Run(start, front), r)
  {
    var rs := front + [r];
    var s := Run(start, front);
    MovedCameFromARequest(start, front, r.linkId);
    JournalExplainsState(start, front);
    LastTargetRecorded(s.reroutes, r.linkId);
    var k :| 0 <= k < |s.reroutes| && s.reroutes[k].request.linkId == r.linkId;
    JournalTargetsKnown(start, front);
    var q := s.reroutes[k].request;
    var m :| 0 <= m < |front| && front[m] == q;
    assert rs[m] == q && rs[|front|] == r;
    var n :| 0 <= n < |front| && front[n].linkId == r.linkId && front[n].toPath == s.moved[r.linkId];
    assert rs[n] == front[n];
  }

  lemma LastTargetRecorded(journal: seq<Record>, link: string)
    requires LastTarget(journal, link).Some?
    ensures exists k :: 0 <= k < |journal| && journal[k].request.linkId == link
  {
    var last := journal[|journal| - 1].request;
    if last.linkId != link {
      LastTargetRecorded(journal[..|journal| - 1], link);
      var k :| 0 <= k < |journal| - 1 && journal[..|journal| - 1][k].request.linkId == link;
      assert journal[k].request.linkId == link;
    }
  }

  /**
   * Duplicate delivery is harmless: all answers for a link with one route agree, and they cost at
   * most one unit of capacity between them, whatever other links ask in between.
   */
  lemma DuplicatesAgree(start: State, rs: seq<Request>, i: nat, j: nat)
    requires Fresh(start) && i < |rs| && j < |rs| && rs[i].linkId == rs[j].linkId
    requires OneRoute(rs, rs[i].linkId)
    ensures Answer(start, rs, i).accepted == Answer(start, rs, j).accepted
    ensures CountLink(Run(start, rs).reroutes, rs[i].linkId) == if Answer(start, rs, i).accepted then 1 else 0
  {
    AcceptedIffMoved(start, rs, i);
    AcceptedIffMoved(start, rs, j);
    OneRecordPerLink(start, rs, rs[i].linkId);
  }

  lemma {:induction false} OneRecordPerLink(start: State, rs: seq<Request>, link: string)
    requires Fresh(start) && OneRoute(rs, link)
    ensures CountLink(Run(start, rs).reroutes, link) == if link in Run(start, rs).moved then 1 else 0
    decreases |rs|
  {
    if rs != [] {
      hide Apply, Move, Run;
      var front, r := rs[..|rs| - 1], rs[|rs| - 1];
      assert rs == front + [r];
      OneRouteFront(front, r, link);
      OneRecordPerLink(start, front, link);
      LastRequest(start, rs);
      var s := Run(start, front);
      if Apply(s, r).logged.Some? {
        if link == r.linkId && link in s.moved {
          JournalHasRoute(start, front, r);
        }
      }
    }
  }

  /** A link with two routes can be charged twice for the same request: capacity is never given back. */
  lemma AlternatingTargetsPayTwice(start: State, a: Request, b: Request)
    requires Fresh(start) && Known(start, a) && Known(start, b)
    requires a.linkId == b.linkId && a.toPath != b.toPath
    requires start.paths[a.toPath].capacity == 2 && start.paths[b.toPath].capacity == 1
    ensures Run(start, [a, b, a]).paths.Keys == start.paths.Keys
    ensures Run(start, [a, b, a]).paths[a.toPath].capacity == 0
    ensures Run(start, [a, b, a]).reroutes == [Record(a, true), Record(b, true), Record(a, true)]
  {
    hide Apply, Move, Run;
    NothingRun(start);
    assert [a, b, a][..2] == [a, b] && [a, b][..1] == [a] && [a][..0] == [];
    LastRequest(start, [a]);
    OneMove(start, a);
    LastRequest(start, [a, b]);
    OneMove(Move(start, a), b);
    LastRequest(start, [a, b, a]);
    OneMove(Move(Move(start, a), b), a);
  }

  lemma NothingRun(start: State)
    ensures Run(start, []) == start
  {
  }

  // ------------------------------------------------------------------ first come, first served

  predicate Asks(start: State, r: Request, path: string) {
    r.toPath == path && r.fromPath in start.paths
  }

  /** The distinct links asking for `path`, in the order of their first request. */
  function Askers(start: State, rs: seq<Request>, path: string): seq<string> {
    if rs == [] then []
    else
      var before := Askers(start, rs[..|rs| - 1], path);
      var r := rs[|rs| - 1];
      if Asks(start, r, path) && r.linkId !in before then before + [r.linkId] else before
  }

  /** The links riding `path`, in the order they were moved there. */
  function Riders(journal: seq<Record>, path: string): seq<string> {
    if journal == [] then []
    else
      var before := Riders(journal[..|journal| - 1], path);
      var last := journal[|journal| - 1].request;
      if last.toPath == path then before + [last.linkId] else before
  }

  lemma RidersCounted(journal: seq<Record>, path: string)
    ensures |Riders(journal, path)| == CountTo(journal, path)
  {
  }

  lemma {:induction false} AskersAre(start: State, rs: seq<Request>, path: string, link: string)
    ensures link in Askers(start, rs, path) <==>
            exists k :: 0 <= k < |rs| && rs[k].linkId == link && Asks(start, rs[k], path)
  {
    if rs != [] {
      var front, r := rs[..|rs| - 1], rs[|rs| - 1];
      AskersAre(start, front, path, link);
      if link in Askers(start, front, path) {
        var k :| 0 <= k < |front| && front[k].linkId == link && Asks(start, front[k], path);
        assert rs[k] == front[k];
      }
      if r.linkId == link && Asks(start, r, path) {
        assert rs[|front|] == r;
      }
      if k :| 0 <= k < |rs| && rs[k].linkId == link && Asks(start, rs[k], path) {
        if k < |front| {
          assert front[k] == rs[k];
        }
      }
    }
  }

  lemma {:induction false} RidersMoved(start: State, rs: seq<Request>, path: string, link: string)
    requires Fresh(start) && OneRoute(rs, link) && link in Riders(Run(start, rs).reroutes, path)
    ensures link in Run(start, rs).moved && Run(start, rs).moved[link] == path
    decreases |rs|
  {
    var front, r := rs[..|rs| - 1], rs[|rs| - 1];
    var s := Run(start, front);
    assert front + [r] == rs;
    OneRouteFront(front, r, link);
    hide Apply, Move, Run, OneRoute;
    LastRequest(start, rs);
    if Apply(s, r).logged.Some? {
      if link in Riders(s.reroutes, path) {
        RidersMoved(start, front, path, link);
        if link == r.linkId {
          JournalHasRoute(start, front, r);
        }
      }
    } else {
      RidersMoved(start, front, path, link);
    }
  }

  /** The links that fit on `path`: the first to ask for it, up to its capacity. */
  function Served(start: State, rs: seq<Request>, path: string): seq<string>
    requires path in start.paths
  {
    var askers := Askers(start, rs, path);
    askers[..Min(|askers|, Max(0, start.paths[path].capacity))]
  }

  /** The links asking for the path have one route each. */
  ghost predicate AskersHaveOneRoute(start: State, rs: seq<Request>, path: string) {
    forall k :: 0 <= k < |rs| && Asks(start, rs[k], path) ==> OneRoute(rs, rs[k].linkId)
  }

  lemma AskersFront(start: State, rs: seq<Request>, r: Request, path: string)
    requires AskersHaveOneRoute(start, rs + [r], path)
    ensures AskersHaveOneRoute(start, rs, path)
    ensures Asks(start, r, path) ==> OneRoute(rs + [r], r.linkId) && OneRoute(rs, r.linkId)
  {
    hide OneRoute;
    assert (rs + [r])[|rs|] == r;
    if Asks(start, r, path) {
      OneRouteFront(rs, r, r.linkId);
    }
    forall k | 0 <= k < |rs| && Asks(start, rs[k], path)
      ensures OneRoute(rs, rs[k].linkId)
    {
      assert (rs + [r])[k] == rs[k];
      OneRouteFront(rs, r, rs[k].linkId);
    }
  }

  /** The links riding a path are exactly the first ones that asked, as many as the path can hold. */
  lemma {:induction false} FirstComeFirstServed(start: State, rs: seq<Request>, path: string)
    requires Fresh(start) && AskersHaveOneRoute(start, rs, path) && path in start.paths
    ensures Riders(Run(start, rs).reroutes, path)
            == Served(start, rs, path)
  {
    if rs != [] {
      hide Explains, Apply, Move, Run, AskersHaveOneRoute, OneRoute;
      var front, r := rs[..|rs| - 1], rs[|rs| - 1];
      assert rs == front + [r];
      AskersFront(start, front, r, path);
      FirstComeFirstServed(start, front, path);
      var s := Run(start, front);
      CapacityConserved(start, front, path);
      RidersCounted(s.reroutes, path);
      LastRequest(start, rs);
      SamePaths(start, front);
      if Asks(start, r, path) {
        ServeOne(start, front, r, path);
      }
    }
  }

  /** One request for `path`: it is a fresh move exactly when its link is new and there is room. */
  lemma ServeOne(start: State, front: seq<Request>, r: Request, path: string)
    requires Fresh(start) && OneRoute(front + [r], r.linkId) && path in start.paths && Asks(start, r, path)
    requires OneRoute(front, r.linkId)
    requires Riders(Run(start, front).reroutes, path)
             == Served(start, front, path)
    ensures Apply(Run(start, front), r).logged.Some? <==>
            r.linkId !in Askers(start, front, path) && |Askers(start, front, path)| < start.paths[path].capacity
  {
    hide Apply, Move, Run, Askers, Riders;
    var s := Run(start, front);
    OneRequest(s, r);
    SamePaths(start, front);
    var askers := Askers(start, front, path);
    CapacityConserved(start, front, path);
    RidersCounted(s.reroutes, path);
    AskersAre(start, front, path, r.linkId);
    if r.linkId in Riders(s.reroutes, path) {
      RidersMoved(start, front, path, r.linkId);
    }
    if r.linkId in s.moved {
      JournalHasRoute(start, front, r);
      MovedWasAsked(start, front, r);
    }
  }

  lemma MovedWasAsked(start: State, front: seq<Request>, r: Request)
    requires Fresh(start) && OneRoute(front + [r], r.linkId) && Known(start, r)
    requires r.linkId in Run(start, front).moved
    ensures r.linkId in Askers(start, front, r.toPath)
  {
    MovedCameFromARequest(start, front, r.linkId);
    var n :| 0 <= n < |front| && front[n].linkId == r.linkId && front[n].toPath == Run(start, front).moved[r.linkId];
    assert (front + [r])[n] == front[n] && (front + [r])[|front|] == r;
    assert Asks(start, front[n], r.toPath);
    AskersAre(start, front, r.toPath, r.linkId);
  }

  /** By the end of the run, a link has moved exactly when it rides the path it asks for. */
  lemma MovedIffRides(start: State, rs: seq<Request>, i: nat)
    requires Fresh(start) && i < |rs| && OneRoute(rs, rs[i].linkId)
    ensures rs[i].linkId in Run(start, rs).moved <==> rs[i].linkId in Riders(Run(start, rs).reroutes, rs[i].toPath)
    ensures rs[i].linkId in Run(start, rs).moved ==> Known(start, rs[i])
  {
    var r := rs[i];
    assert OneRoute(rs + [r], r.linkId) by {
      assert forall k :: 0 <= k < |rs| ==> (rs + [r])[k] == rs[k];
    }
    JournalExplainsState(start, rs);
    if r.linkId in Run(start, rs).moved {
      JournalHasRoute(start, rs, r);
      LastTargetRides(Run(start, rs).reroutes, r.linkId, r.toPath);
    } else if r.linkId in Riders(Run(start, rs).reroutes, r.toPath) {
      RidersMoved(start, rs, r.toPath, r.linkId);
    }
  }

  /** The only refusal of a request between known paths is that its link came too late for the capacity. */
  lemma AcceptedIffEarlyEnough(start: State, rs: seq<Request>, i: nat)
    requires Fresh(start) && i < |rs| && OneRoute(rs, rs[i].linkId)
    requires AskersHaveOneRoute(start, rs, rs[i].toPath)
    ensures Answer(start, rs, i).accepted <==>
            Known(start, rs[i]) && rs[i].linkId in Served(start, rs, rs[i].toPath)
  {
    AcceptedIffMoved(start, rs, i);
    MovedIffRides(start, rs, i);
    if Known(start, rs[i]) {
      FirstComeFirstServed(start, rs, rs[i].toPath);
    }
  }

  lemma LastTargetRides(journal: seq<Record>, link: string, path: string)
    requires LastTarget(journal, link) == Some(path)
    ensures link in Riders(journal, path)
  {
  }

  // ------------------------------------------------------------------ status

  /** Healer traffic: away from a working path, onto a protection path. */
  ghost predicate WorkingToProtection(start: State, rs: seq<Request>) {
    forall i :: 0 <= i < |rs| && Known(start, rs[i]) ==>
      start.paths[rs[i].fromPath].role == "working" && start.paths[rs[i].toPath].role == "protection"
  }

  lemma {:induction false} StatusOfProtection(initial: Status, journal: seq<Record>, path: string)
    requires initial == Standby
    requires forall k :: 0 <= k < |journal| ==> journal[k].request.fromPath != path
    ensures StatusAfter(initial, journal, path) == if CountTo(journal, path) == 0 then Standby else Active
  {
    if journal != [] {
      StatusOfProtection(initial, journal[..|journal| - 1], path);
    }
  }

  lemma {:induction false} StatusOfWorking(initial: Status, journal: seq<Record>, path: string)
    requires initial == Active
    requires forall k :: 0 <= k < |journal| ==> journal[k].request.toPath != path
    ensures StatusAfter(initial, journal, path) == Down <==>
            exists k :: 0 <= k < |journal| && journal[k].request.fromPath == path
    ensures StatusAfter(initial, journal, path) == Down || StatusAfter(initial, journal, path) == Active
  {
    if journal != [] {
      var front := journal[..|journal| - 1];
      StatusOfWorking(initial, front, path);
      if k :| 0 <= k < |journal| && journal[k].request.fromPath == path && k < |front| {
        assert front[k].request.fromPath == path;
      }
      if k :| 0 <= k < |front| && front[k].request.fromPath == path {
        assert journal[k].request.fromPath == path;
      }
    }
  }

  /** A protection path is on standby iff untouched; any other path is down iff traffic has left it. */
  lemma StatusMeansUse(c: Config, rs: seq<Request>, path: string)
    requires Valid(c) && WorkingToProtection(Init(c), rs) && path in c.specs
    ensures path in Run(Init(c), rs).paths
    ensures var p := Run(Init(c), rs).paths[path];
      && (c.specs[path].role == Some("protection") ==>
            p.status == if p.capacity == p.capacityTotal then Standby else Active)
      && (c.specs[path].role != Some("protection") ==>
            (p.status == Down <==>
              exists k :: 0 <= k < |Run(Init(c), rs).reroutes|
                       && Run(Init(c), rs).reroutes[k].request.fromPath == path))
  {
    var start := Init(c);
    JournalExplainsState(start, rs);
    JournalTargetsKnown(start, rs);
    var journal := Run(start, rs).reroutes;
    if c.specs[path].role == Some("protection") {
      StatusOfProtection(Standby, journal, path);
    } else {
      StatusOfWorking(Active, journal, path);
    }
  }

  /** A path of the topology file as it is before any request: its links, its role, its status and its capacity. */
  lemma AsLoaded(c: Config, path: string)
    requires path in c.specs
    ensures path in Init(c).paths
    ensures var spec, p := c.specs[path], Init(c).paths[path];
      && p.links == spec.links && Some(p.role) == (if spec.role == None then Some("working") else spec.role)
      && (p.status == Standby <==> spec.role == Some("protection"))
      && (p.status == Active <==> spec.role != Some("protection"))
      && p.capacity == p.capacityTotal
      && (spec.capacity.Some? ==> Some(p.capacity) == spec.capacity) && (spec.capacity == None ==> p.capacity == 1)
  {
  }

  /** In every run, capacity left and records targeting the path add up to the number in the file, or one. */
  lemma CapacityInFile(c: Config, rs: seq<Request>, path: string)
    requires Valid(c) && path in c.specs
    ensures path in Run(Init(c), rs).paths
    ensures Run(Init(c), rs).paths[path].capacity + CountTo(Run(Init(c), rs).reroutes, path)
            == match c.specs[path].capacity { case Some(written) => written case None => 1 }
  {
    hide Run, Init, LoadPath;
    AsLoaded(c, path);
    InitIsFresh(c);
    CapacityConserved(Init(c), rs, path);
  }

  lemma InitIsFresh(c: Config)
    ensures Fresh(Init(c)) && Init(c).paths.Keys == c.specs.Keys
  {
  }

  /**
   * In every run of working-to-protection traffic, the empty one included, a path that is not for
   * protection is active until an accepted move leaves it and down from then on, and a protection path
   * is on standby until an accepted move arrives and active from then on.
   */
  lemma StatusFollowsMoves(c: Config, rs: seq<Request>, path: string)
    requires Valid(c) && WorkingToProtection(Init(c), rs) && path in c.specs
    ensures path in Run(Init(c), rs).paths
    ensures var s := Run(Init(c), rs);
      if c.specs[path].role == Some("protection")
      then s.paths[path].status == if CountTo(s.reroutes, path) == 0 then Standby else Active
      else s.paths[path].status == if Left(s.reroutes, path) then Down else Active
  {
    hide Run, Init, LoadPath;
    AsLoaded(c, path);
    InitIsFresh(c);
    JournalTargetsKnown(Init(c), rs);
    StatusOfRun(c, rs, path);
    var journal := Run(Init(c), rs).reroutes;
    RolesAsLoaded(c);
    if c.specs[path].role == Some("protection") {
      StatusOfProtection(Standby, journal, path);
    } else {
      StatusOfWorking(Active, journal, path);
    }
  }

  lemma RolesAsLoaded(c: Config)
    ensures forall p :: p in c.specs ==> p in Init(c).paths
    ensures forall p :: p in c.specs ==>
      (Init(c).paths[p].role == "protection" <==> c.specs[p].role == Some("protection"))
  {
  }

  // ------------------------------------------------------------------ status under any traffic

  /** Some record of the journal moved traffic off the path. */
  ghost predicate Left(journal: seq<Record>, path: string) {
    exists k :: 0 <= k < |journal| && journal[k].request.fromPath == path
  }

  /** Record k moved traffic off the path and no later one moved any onto it. */
  ghost predicate LeftAt(journal: seq<Record>, path: string, k: nat) {
    k < |journal| && journal[k].request.fromPath == path
    && forall m :: k < m < |journal| ==> journal[m].request.toPath != path
  }

  ghost predicate LeftForGood(journal: seq<Record>, path: string) {
    exists k: nat :: LeftAt(journal, path, k)
  }

  lemma LeftSnoc(journal: seq<Record>, last: Record, path: string)
    ensures Left(journal + [last], path) <==> Left(journal, path) || last.request.fromPath == path
  {
    var more := journal + [last];
    assert more[|journal|] == last && forall k :: 0 <= k < |journal| ==> more[k] == journal[k];
    if k :| 0 <= k < |journal| && journal[k].request.fromPath == path {
      assert more[k].request.fromPath == path;
    }
  }

  lemma LeftAtSnoc(journal: seq<Record>, last: Record, path: string, k: nat)
    ensures LeftAt(journal + [last], path, k)
            <==> if k == |journal| then last.request.fromPath == path
                 else LeftAt(journal, path, k) && last.request.toPath != path
  {
    var more := journal + [last];
    assert more[|journal|] == last && forall m :: 0 <= m < |journal| ==> more[m] == journal[m];
  }

  lemma LeftForGoodSnoc(journal: seq<Record>, last: Record, path: string)
    ensures LeftForGood(journal + [last], path)
            <==> last.request.fromPath == path || (LeftForGood(journal, path) && last.request.toPath != path)
  {
    hide LeftAt;
    forall k: nat
      ensures LeftAt(journal + [last], path, k)
              <==> if k == |journal| then last.request.fromPath == path
                   else LeftAt(journal, path, k) && last.request.toPath != path
    {
      LeftAtSnoc(journal, last, path, k);
    }
    if last.request.fromPath == path {
      assert LeftAt(journal + [last], path, |journal|);
    }
    if k: nat :| LeftAt(journal, path, k) && last.request.toPath != path {
      LeftAtInside(journal, path, k);
      assert LeftAt(journal + [last], path, k);
    }
  }

  lemma LeftAtInside(journal: seq<Record>, path: string, k: nat)
    requires LeftAt(journal, path, k)
    ensures k < |journal|
  {
  }

  lemma LeftForGoodLeft(journal: seq<Record>, path: string)
    ensures LeftForGood(journal, path) ==> Left(journal, path)
  {
  }

  lemma {:induction false} StatusByLastMove(initial: Status, journal: seq<Record>, path: string)
    ensures initial != Down ==> (StatusAfter(initial, journal, path) == Down <==> LeftForGood(journal, path))
    ensures initial == Standby ==>
      (StatusAfter(initial, journal, path) == Standby <==> CountTo(journal, path) == 0 && !Left(journal, path))
  {
    hide Left, LeftForGood;
    if journal == [] {
      NothingLeft(path);
    } else {
      var front, last := journal[..|journal| - 1], journal[|journal| - 1];
      StatusByLastMove(initial, front, path);
      LeftSnoc(front, last, path);
      LeftForGoodSnoc(front, last, path);
      assert journal == front + [last];
    }
  }

  lemma NothingLeft(path: string)
    ensures !Left([], path) && !LeftForGood([], path)
  {
  }

  /** What the status of a protection path is meant to say. */
  predicate StandbyIffUntouched(p: Path) {
    p.status == Standby <==> p.capacity == p.capacityTotal
  }

  /** What the status of a working path is meant to say. */
  ghost predicate DownIffLeft(s: State, path: string)
    requires path in s.paths
  {
    s.paths[path].status == Down <==> Left(s.reroutes, path)
  }

  lemma StatusOfRun(c: Config, rs: seq<Request>, path: string)
    requires Valid(c) && path in c.specs
    ensures path in Run(Init(c), rs).paths
    ensures var s := Run(Init(c), rs);
      && s.paths[path].capacityTotal - s.paths[path].capacity == CountTo(s.reroutes, path)
      && s.paths[path].status == StatusAfter(Init(c).paths[path].status, s.reroutes, path)
  {
    JournalExplainsState(Init(c), rs);
  }

  /**
   * Under any traffic, the status of a protection path tells its use exactly when no traffic was
   * moved off it while it carried none.
   */
  lemma ProtectionStatusIff(c: Config, rs: seq<Request>, path: string)
    requires Valid(c) && path in c.specs && c.specs[path].role == Some("protection")
    ensures path in Run(Init(c), rs).paths
    ensures StandbyIffUntouched(Run(Init(c), rs).paths[path])
            <==> (CountTo(Run(Init(c), rs).reroutes, path) == 0 ==> !Left(Run(Init(c), rs).reroutes, path))
  {
    hide Run, Left;
    StatusOfRun(c, rs, path);
    StatusByLastMove(Standby, Run(Init(c), rs).reroutes, path);
  }

  /** Under any traffic, a working path is "down iff left" exactly when none came onto it after the last left. */
  lemma WorkingStatusIff(c: Config, rs: seq<Request>, path: string)
    requires Valid(c) && path in c.specs && c.specs[path].role != Some("protection")
    ensures path in Run(Init(c), rs).paths
    ensures DownIffLeft(Run(Init(c), rs), path)
            <==> (Left(Run(Init(c), rs).reroutes, path) ==> LeftForGood(Run(Init(c), rs).reroutes, path))
  {
    hide Run, Left, LeftForGood;
    StatusOfRun(c, rs, path);
    StatusByLastMove(Active, Run(Init(c), rs).reroutes, path);
    LeftForGoodLeft(Run(Init(c), rs).reroutes, path);
  }

  /** The request is a fresh move, as the lock holder can tell before carrying it out. */
  predicate FreshMove(s: State, r: Request) {
    Known(s, r) && !Rides(s, r) && s.paths[r.toPath].capacity > 0
  }

  /** The one request that spoils the status of a protection path: it moves traffic off it while it carries none. */
  lemma SpoilsProtectionIff(c: Config, rs: seq<Request>, r: Request, path: string)
    requires Valid(c) && path in c.specs && c.specs[path].role == Some("protection")
    ensures path in Run(Init(c), rs).paths && path in Run(Init(c), rs + [r]).paths
    ensures var s := Run(Init(c), rs);
      StandbyIffUntouched(s.paths[path]) ==>
        (!StandbyIffUntouched(Run(Init(c), rs + [r]).paths[path])
         <==> && FreshMove(s, r) && r.fromPath == path != r.toPath
              && s.paths[path].capacity == s.paths[path].capacityTotal)
  {
    hide Run, Rides;
    var s := Run(Init(c), rs);
    StatusOfRun(c, rs, path);
    StatusOfRun(c, rs + [r], path);
    RunSnoc(Init(c), rs, r);
    OneRequest(s, r);
  }

  /** The one request that spoils the status of a working path: it moves traffic onto it while it is down. */
  lemma SpoilsWorkingIff(c: Config, rs: seq<Request>, r: Request, path: string)
    requires Valid(c) && path in c.specs && c.specs[path].role != Some("protection")
    ensures path in Run(Init(c), rs).paths && path in Run(Init(c), rs + [r]).paths
    ensures var s := Run(Init(c), rs);
      DownIffLeft(s, path) ==>
        (!DownIffLeft(Run(Init(c), rs + [r]), path)
         <==> FreshMove(s, r) && r.toPath == path != r.fromPath && s.paths[path].status == Down)
  {
    hide Run, Rides, Left;
    var s := Run(Init(c), rs);
    StatusOfRun(c, rs, path);
    StatusOfRun(c, rs + [r], path);
    RunSnoc(Init(c), rs, r);
    OneRequest(s, r);
    if FreshMove(s, r) {
      OneMove(s, r);
      LeftSnoc(s.reroutes, Record(r, true), path);
    }
  }

  /** A request any client can post about the shipped topology. */
  function Posted(fromPath: string, toPath: string, link: string): Request {
    Request(fromPath, toPath, link, "", 0.0, 0.0, 0.0, 600, 0)
  }

  /**
   * The path manager does not check roles. Asked to move a link of the shipped topology off its unused
   * protection path, it reports that path down while its capacity is untouched.
   */
  lemma UnusedProtectionCanGoDown()
    ensures Valid(SHIPPED) && SHIPPED.specs["P_prot_L2"].role == Some("protection")
    ensures var s := Run(Init(SHIPPED), [Posted("P_prot_L2", "P_work_L1", "L1")]);
      && "P_prot_L2" in s.paths && s.paths["P_prot_L2"].status == Down
      && s.paths["P_prot_L2"].capacity == s.paths["P_prot_L2"].capacityTotal == 1
      && !StandbyIffUntouched(s.paths["P_prot_L2"])
  {
    var start, r := Init(SHIPPED), Posted("P_prot_L2", "P_work_L1", "L1");
    ShippedIsValid();
    DifferentNames();
    assert [] + [r] == [r];
    RunSnoc(start, [], r);
    assert Apply(start, r).state == Move(start, r);
  }

  /** And asked to move another link onto a working path that has gone down, it reports that path active. */
  lemma DownWorkingCanComeBack()
    ensures Valid(SHIPPED) && SHIPPED.specs["P_work_L1"].role == Some("working")
    ensures var rs := [Posted("P_work_L1", "P_prot_L2", "L1"), Posted("P_work_L3", "P_work_L1", "L3")];
      && "P_work_L1" in Run(Init(SHIPPED), rs).paths
      && Run(Init(SHIPPED), rs).paths["P_work_L1"].status == Active
      && Left(Run(Init(SHIPPED), rs).reroutes, "P_work_L1")
  {
    var start, q, r := Init(SHIPPED), Posted("P_work_L1", "P_prot_L2", "L1"), Posted("P_work_L3", "P_work_L1", "L3");
    ShippedIsValid();
    DifferentNames();
    assert [] + [q] == [q] && [q] + [r] == [q, r];
    RunSnoc(start, [], q);
    RunSnoc(start, [q], r);
    var s := Move(start, q);
    assert Apply(start, q).state == s;
    assert Apply(s, r).state == Move(s, r);
    assert Run(start, [q]) == s && Run(start, [q, r]) == Move(s, r);
    assert Move(s, r).reroutes == [Record(q, true), Record(r, true)];
    assert Move(s, r).reroutes[0].request.fromPath == "P_work_L1";
  }

  lemma DifferentNames()
    ensures "P_work_L1" != "P_prot_L2" && "P_work_L1" != "P_work_L3" && "P_prot_L2" != "P_work_L3" && "L1" != "L3"
  {
    assert "P_work_L1"[8] != "P_prot_L2"[8] && "P_work_L1"[8] != "P_work_L3"[8] && "P_prot_L2"[8] != "P_work_L3"[8];
    assert "L1"[1] != "L3"[1];
  }
}
