/** The path manager: a value-level account of one reroute and the class that carries it out in place. */
module PathManager {
  import opened Basics
  import opened Topology

  datatype Request = Request(
    fromPath: string, toPath: string, linkId: string, reason: string,
    pFail: real, sIf: real, sAe: real, horizonS: int, tsUnixMs: int)

  /** The five things an answer can say; `Text` is how each is worded. */
  datatype Message =
    | UnknownFrom(path: string)
    | UnknownTo(path: string)
    | AlreadyRides(linkId: string, path: string)
    | NoCapacity(path: string)
    | Moved(fromPath: string, toPath: string)
  {
    function Text(): string {
      match this
      case UnknownFrom(p) => "unknown from_path " + p
      case UnknownTo(p) => "unknown to_path " + p
      case AlreadyRides(l, p) => l + " already rides " + p
      case NoCapacity(p) => p + " has no spare capacity"
      case Moved(f, t) => "traffic moved " + f + " -> " + t
    }
  }

  datatype Response = Response(accepted: bool, message: Message)

  /** A journal line: the request plus the literal accepted flag. */
  datatype Record = Record(request: Request, accepted: bool)

  datatype Status = Active | Standby | Down

  datatype Path = Path(links: seq<string>, role: string, capacity: int, capacityTotal: int, status: Status)

  /** What `apply_reroute` reads and writes. */
  datatype State = State(paths: map<string, Path>, moved: map<string, string>, reroutes: seq<Record>)

  function LoadPath(spec: PathSpec): Path {
    var capacity := if spec.capacity.Some? then spec.capacity.value else 1;
    Path(spec.links,
         if spec.role.Some? then spec.role.value else "working",
         capacity, capacity,
         if spec.role == Some("protection") then Standby else Active)
  }

  function Init(c: Config): State {
    State(map n | n in c.specs :: LoadPath(c.specs[n]), map[], [])
  }

  /** New state, answer, and the record handed to the log file after the lock is released. */
  datatype Outcome = Outcome(state: State, response: Response, logged: Option<Record>)

  predicate Known(s: State, r: Request) {
    r.fromPath in s.paths && r.toPath in s.paths
  }

  predicate Rides(s: State, r: Request) {
    r.linkId in s.moved && s.moved[r.linkId] == r.toPath
  }

  function Move(s: State, r: Request): State
    requires Known(s, r)
  {
    var target := s.paths[r.toPath];
    var paths := s.paths[r.toPath := target.(capacity := target.capacity - 1, status := Active)];
    State(paths[r.fromPath := paths[r.fromPath].(status := Down)],
          s.moved[r.linkId := r.toPath],
          s.reroutes + [Record(r, true)])
  }

  function Apply(s: State, r: Request): Outcome {
    if r.fromPath !in s.paths then
      Outcome(s, Response(false, UnknownFrom(r.fromPath)), None)
    else if r.toPath !in s.paths then
      Outcome(s, Response(false, UnknownTo(r.toPath)), None)
    else if Rides(s, r) then
      Outcome(s, Response(true, AlreadyRides(r.linkId, r.toPath)), None)
    else if s.paths[r.toPath].capacity <= 0 then
      Outcome(s, Response(false, NoCapacity(r.toPath)), None)
    else
      Outcome(Move(s, r), Response(true, Moved(r.fromPath, r.toPath)), Some(Record(r, true)))
  }

  /** State after the requests of `rs`, in the order in which they took the lock. */
  function Run(s: State, rs: seq<Request>): State {
    if rs == [] then s else Apply(Run(s, rs[..|rs| - 1]), rs[|rs| - 1]).state
  }

  /** The answer given to request `i` of the run. */
  function Answer(s: State, rs: seq<Request>, i: nat): Response
    requires i < |rs|
  {
    Apply(Run(s, rs[..i]), rs[i]).response
  }

  lemma RunSnoc(s: State, rs: seq<Request>, r: Request)
    ensures Run(s, rs + [r]) == Apply(Run(s, rs), r).state
    ensures Answer(s, rs + [r], |rs|) == Apply(Run(s, rs), r).response
    ensures forall i :: 0 <= i < |rs| ==> Answer(s, rs + [r], i) == Answer(s, rs, i)
  {
    assert (rs + [r])[..|rs|] == rs;
    assert forall i :: 0 <= i < |rs| ==> (rs + [r])[..i] == rs[..i];
  }

  class TopologyState {
    var protection: map<string, string>
    var paths: map<string, Path>
    var reroutes: seq<Record>
    var moved: map<string, string>
    var logFile: seq<Record>  // lines appended to the JSONL file

    ghost function View(): State
      reads this
    {
      State(paths, moved, reroutes)
    }

    constructor (topology: Config)
      requires Valid(topology)
      ensures View() == Init(topology)
      ensures protection == topology.protection
      ensures logFile == []
    {
      protection := topology.protection;
      paths := map[];
      reroutes := [];
      moved := map[];
      logFile := [];
      new;
      hide LoadPath;
      for i := 0 to |topology.names|
        invariant forall n :: n in paths <==> n in topology.names[..i]
        invariant forall n :: n in paths ==> paths[n] == LoadPath(topology.specs[n])
        invariant reroutes == [] && moved == map[] && logFile == [] && protection == topology.protection
      {
        paths := paths[topology.names[i] := LoadPath(topology.specs[topology.names[i]])];
      }
      assert topology.names[..|topology.names|] == topology.names;
      assert paths == Init(topology).paths;
    }

    /** `diskOk` says whether opening and writing the log file succeeds. */
    method AppendLog(record: Record, diskOk: bool)
      modifies this`logFile
      ensures logFile == if diskOk then old(logFile) + [record] else old(logFile)
    {
      if diskOk {
        logFile := logFile + [record];
      }
    }

    method ApplyReroute(request: Request, diskOk: bool) returns (response: Response)
      modifies this`paths, this`moved, this`reroutes, this`logFile
      ensures View() == Apply(old(View()), request).state
      ensures response == Apply(old(View()), request).response
      ensures logFile == if Apply(old(View()), request).logged.Some? && diskOk
                         then old(logFile) + [Record(request, true)] else old(logFile)
    {
      if request.fromPath !in paths {
        return Response(false, UnknownFrom(request.fromPath));
      }
      if request.toPath !in paths {
        return Response(false, UnknownTo(request.toPath));
      }
      if request.linkId in moved && moved[request.linkId] == request.toPath {
        return Response(true, AlreadyRides(request.linkId, request.toPath));
      }
      if paths[request.toPath].capacity <= 0 {
        return Response(false, NoCapacity(request.toPath));
      }
      paths := paths[request.toPath := paths[request.toPath].(capacity := paths[request.toPath].capacity - 1)];
      paths := paths[request.toPath := paths[request.toPath].(status := Active)];
      paths := paths[request.fromPath := paths[request.fromPath].(status := Down)];
      moved := moved[request.linkId := request.toPath];
      var record := Record(request, true);
      reroutes := reroutes + [record];
      AppendLog(record, diskOk);
      return Response(true, Moved(request.fromPath, request.toPath));
    }

    /** The path manager's own resolver, over the loaded paths in file order. */
    method WorkingPathForLink(topology: Config, linkId: string) returns (name: Option<string>)
      requires Valid(topology)
      requires paths.Keys == topology.specs.Keys
      requires forall n :: n in paths ==>
        paths[n].links == LoadPath(topology.specs[n]).links && paths[n].role == LoadPath(topology.specs[n]).role
      ensures name == ManagerPathFrom(topology, linkId, 0)
    {
      for i := 0 to |topology.names|
        invariant ManagerPathFrom(topology, linkId, 0) == ManagerPathFrom(topology, linkId, i)
      {
        var spec := paths[topology.names[i]];
        if spec.role == "working" && linkId in spec.links {
          return Some(topology.names[i]);
        }
      }
      return None;
    }
  }
}
