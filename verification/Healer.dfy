/** The self-heal policy: one observation at a time, per-link streak and hysteresis, two emissions. */
module Healer {
  import opened Basics
  import opened Topology
  import opened PathManager

  datatype Thresholds = Thresholds(pFail: real, consecutive: int, hysteresis: real, horizonS: int)

  datatype Policy = Policy(thresholds: Thresholds, topology: Config)

  datatype Observation = Observation(
    tsUnixMs: int, linkId: string, channelId: string, sIf: real, sAe: real, pFail10m: real)

  /** One call of `observe` with the readings its clock would give, in seconds. */
  datatype Event = Event(obs: Observation, clockNow: real, clockStamp: real)

  /** The fields of a `LinkState` object. */
  datatype Link = Link(consecutive: int, observations: int, lastReroute: Option<real>, rerouted: bool)

  datatype Action =
    | BelowThreshold(linkId: string)
    | Counting(linkId: string, consecutive: int)
    | SuppressedHysteresis(linkId: string, consecutive: int)
    | NoProtectionPath(linkId: string)
    | RerouteEmitted(linkId: string, payload: Request)

  datatype Egress = Rest(payload: Request) | Grpc(payload: Request)

  const REASON := "soft_fail_predicted edfa_or_transceiver_aging"

  const NEW_LINK := Link(0, 0, None, false)

  /** Seconds: the sample's own timestamp when it has one, the clock otherwise. */
  function Now(e: Event): real {
    if e.obs.tsUnixMs != 0 then e.obs.tsUnixMs as real / 1000.0 else e.clockNow
  }

  /** Conversion to an integer drops the fraction, towards zero. */
  function Truncate(x: real): (r: int)
    ensures x >= 0.0 ==> r as real <= x < r as real + 1.0
    ensures x < 0.0 ==> r as real - 1.0 < x <= r as real
  {
    if x >= 0.0 then x.Floor else -((-x).Floor)
  }

  function Payload(p: Policy, e: Event, fromPath: string, toPath: string): Request {
    Request(fromPath, toPath, e.obs.linkId, REASON, e.obs.pFail10m, e.obs.sIf, e.obs.sAe, p.thresholds.horizonS,
            if e.obs.tsUnixMs != 0 then e.obs.tsUnixMs else Truncate(e.clockStamp * 1000.0))
  }

  predicate Hot(p: Policy, e: Event) {
    e.obs.pFail10m >= p.thresholds.pFail
  }

  predicate HeldOff(p: Policy, lastReroute: Option<real>, now: real) {
    lastReroute.Some? && now - lastReroute.value < p.thresholds.hysteresis
  }

  predicate Resolves(p: Policy, linkId: string)
    requires Valid(p.topology)
  {
    HealerPath(p.topology, linkId).Some? && ProtectionPath(p.topology, linkId).Some?
  }

  /** The decision taken on one observation, as a function of the link's state. */
  function Decide(p: Policy, link: Link, e: Event): (Link, Action)
    requires Valid(p.topology)
  {
    var seen := link.(observations := link.observations + 1);
    if !Hot(p, e) then (seen.(consecutive := 0), BelowThreshold(e.obs.linkId))
    else
      var counted := seen.(consecutive := seen.consecutive + 1);
      if counted.consecutive < p.thresholds.consecutive then
        (counted, Counting(e.obs.linkId, counted.consecutive))
      else if HeldOff(p, counted.lastReroute, Now(e)) then
        (counted, SuppressedHysteresis(e.obs.linkId, counted.consecutive))
      else if !Resolves(p, e.obs.linkId) then
        (counted, NoProtectionPath(e.obs.linkId))
      else
        var payload := Payload(p, e, HealerPath(p.topology, e.obs.linkId).value,
                               ProtectionPath(p.topology, e.obs.linkId).value);
        (counted.(lastReroute := Some(Now(e)), rerouted := true), RerouteEmitted(e.obs.linkId, payload))
  }

  function LinkOf(links: map<string, Link>, linkId: string): Link {
    if linkId in links then links[linkId] else NEW_LINK
  }

  class LinkState {
    var consecutive: int
    var observations: int
    var lastReroute: Option<real>
    var rerouted: bool

    ghost function View(): Link
      reads this
    {
      Link(consecutive, observations, lastReroute, rerouted)
    }

    constructor ()
      ensures View() == NEW_LINK
    {
      consecutive, observations, lastReroute, rerouted := 0, 0, None, false;
    }
  }

  class HealerService {
    const policy: Policy
    var links: map<string, LinkState>
    var outbox: seq<Egress>  // calls made, in order

    /** No two links share a state object. */
    ghost predicate Valid()
      reads this
    {
      && Topology.Valid(policy.topology)
      && forall a, b :: a in links && b in links && a != b ==> links[a] != links[b]
    }

    ghost function View(): map<string, Link>
      reads this, links.Values
    {
      map k | k in links :: links[k].View()
    }

    constructor (policy: Policy)
      requires Topology.Valid(policy.topology)
      ensures Valid() && View() == map[] && outbox == [] && this.policy == policy
    {
      this.policy := policy;
      links := map[];
      outbox := [];
    }

    method WorkingPathForLink(linkId: string) returns (name: Option<string>)
      requires Valid()
      ensures name == HealerPath(policy.topology, linkId)
    {
      for i := 0 to |policy.topology.names|
        invariant HealerPath(policy.topology, linkId) == HealerPathFrom(policy.topology, linkId, i)
      {
        var spec := policy.topology.specs[policy.topology.names[i]];
        if spec.role == Some("working") && linkId in spec.links {
          return Some(policy.topology.names[i]);
        }
      }
      return None;
    }

    method Emit(payload: Request)
      modifies this`outbox
      ensures outbox == old(outbox) + [Rest(payload), Grpc(payload)]
    {
      outbox := outbox + [Rest(payload)];
      outbox := outbox + [Grpc(payload)];
    }

    /** Find the link's state object, creating it on first sight. */
    method SetDefault(linkId: string) returns (state: LinkState)
      requires Valid()
      modifies this`links
      ensures Valid() && linkId in links && links[linkId] == state
      ensures forall k :: k in links <==> k in old(links) || k == linkId
      ensures forall k :: k in old(links) ==> links[k] == old(links[k])
      ensures linkId !in old(links) ==> fresh(state)
      ensures state.View() == LinkOf(old(View()), linkId)
    {
      if linkId in links {
        state := links[linkId];
      } else {
        state := new LinkState();
        links := links[linkId := state];
      }
    }

    /** The policy proper, on the state object of the observed link. */
    method Judge(state: LinkState, e: Event) returns (action: Action)
      requires Valid()
      modifies state, this`outbox
      ensures Valid()
      ensures state.View() == Decide(policy, old(state.View()), e).0
      ensures action == Decide(policy, old(state.View()), e).1
      ensures outbox == if action.RerouteEmitted?
                        then old(outbox) + [Rest(action.payload), Grpc(action.payload)] else old(outbox)
    {
      state.observations := state.observations + 1;
      var now := Now(e);
      if e.obs.pFail10m < policy.thresholds.pFail {
        state.consecutive := 0;
        return BelowThreshold(e.obs.linkId);
      }
      state.consecutive := state.consecutive + 1;
      if state.consecutive < policy.thresholds.consecutive {
        return Counting(e.obs.linkId, state.consecutive);
      }
      if state.lastReroute.Some? && now - state.lastReroute.value < policy.thresholds.hysteresis {
        return SuppressedHysteresis(e.obs.linkId, state.consecutive);
      }
      var fromPath := WorkingPathForLink(e.obs.linkId);
      var toPath := ProtectionPath(policy.topology, e.obs.linkId);
      if fromPath == None || toPath == None {
        return NoProtectionPath(e.obs.linkId);
      }
      var payload := Payload(policy, e, fromPath.value, toPath.value);
      Emit(payload);
      state.lastReroute := Some(now);
      state.rerouted := true;
      return RerouteEmitted(e.obs.linkId, payload);
    }

    method Observe(e: Event) returns (action: Action)
      requires Valid()
      modifies this`links, this`outbox, links.Values
      ensures Valid() && fresh(links.Values - old(links.Values))
      ensures View() == old(View())[e.obs.linkId := Decide(policy, LinkOf(old(View()), e.obs.linkId), e).0]
      ensures action == Decide(policy, LinkOf(old(View()), e.obs.linkId), e).1
      ensures outbox == if action.RerouteEmitted?
                        then old(outbox) + [Rest(action.payload), Grpc(action.payload)] else old(outbox)
    {
      var state := SetDefault(e.obs.linkId);
      action := Judge(state, e);
    }
  }

  // ------------------------------------------------------------------ runs over values

  /** All links after a trace. */
  function Links(p: Policy, trace: seq<Event>): map<string, Link>
    requires Valid(p.topology)
  {
    if trace == [] then map[]
    else
      var before := Links(p, trace[..|trace| - 1]);
      var e := trace[|trace| - 1];
      before[e.obs.linkId := Decide(p, LinkOf(before, e.obs.linkId), e).0]
  }

  /** The action taken on each observation of a trace. */
  function Actions(p: Policy, trace: seq<Event>): (r: seq<Action>)
    requires Valid(p.topology)
    ensures |r| == |trace|
  {
    if trace == [] then []
    else
      var e := trace[|trace| - 1];
      Actions(p, trace[..|trace| - 1]) + [Decide(p, LinkOf(Links(p, trace[..|trace| - 1]), e.obs.linkId), e).1]
  }
}
