/** What the healer does over whole traces: a counter-free specification, per-link independence, emission rate. */
module HealerLaws {
  import opened Basics
  import opened Topology
  import opened Healer

  // ------------------------------------------------------------------ one link at a time

  function Only(trace: seq<Event>, linkId: string): seq<Event> {
    Filter(trace, (e: Event) => e.obs.linkId == linkId)
  }

  lemma OnlySnoc(trace: seq<Event>, e: Event, linkId: string)
    ensures Only(trace + [e], linkId)
            == if e.obs.linkId == linkId then Only(trace, linkId) + [e] else Only(trace, linkId)
  {
    FilterSnoc(trace, e, (x: Event) => x.obs.linkId == linkId);
  }

  function ActionsOf(actions: seq<Action>, linkId: string): seq<Action> {
    Filter(actions, (a: Action) => a.linkId == linkId)
  }

  lemma ActionsOfSnoc(actions: seq<Action>, action: Action, linkId: string)
    ensures ActionsOf(actions + [action], linkId)
            == if action.linkId == linkId then ActionsOf(actions, linkId) + [action] else ActionsOf(actions, linkId)
  {
    FilterSnoc(actions, action, (a: Action) => a.linkId == linkId);
  }

  lemma NothingFiltered(linkId: string)
    ensures Only([], linkId) == [] && ActionsOf([], linkId) == []
  {
  }

  /** The state machine of a single link. */
  function LinkAfter(p: Policy, trace: seq<Event>): Link
    requires Valid(p.topology)
  {
    if trace == [] then NEW_LINK else Decide(p, LinkAfter(p, trace[..|trace| - 1]), trace[|trace| - 1]).0
  }

  function LinkActions(p: Policy, trace: seq<Event>): (r: seq<Action>)
    requires Valid(p.topology)
    ensures |r| == |trace|
  {
    if trace == [] then []
    else LinkActions(p, trace[..|trace| - 1])
         + [Decide(p, LinkAfter(p, trace[..|trace| - 1]), trace[|trace| - 1]).1]
  }

  /** What one decision has to do with its link and with the time of the last emission. */
  lemma OneDecision(p: Policy, link: Link, e: Event)
    requires Valid(p.topology)
    ensures var (after, action) := Decide(p, link, e);
      && action.linkId == e.obs.linkId
      && after.lastReroute == (if action.RerouteEmitted? then Some(Now(e)) else link.lastReroute)
      && (action.RerouteEmitted? && link.lastReroute.Some? ==>
            Now(e) - link.lastReroute.value >= p.thresholds.hysteresis)
  {
    hide Payload, Resolves, Now;
  }

  /** Interleaved observations of other links change neither a link's state nor its actions. */
  lemma {:induction false} LinksDoNotInterfere(p: Policy, trace: seq<Event>, linkId: string)
    requires Valid(p.topology)
    ensures LinkOf(Links(p, trace), linkId) == LinkAfter(p, Only(trace, linkId))
    ensures ActionsOf(Actions(p, trace), linkId) == LinkActions(p, Only(trace, linkId))
  {
    hide Decide, Only, ActionsOf;
    if trace == [] {
      NothingFiltered(linkId);
    } else {
      var front, e := trace[..|trace| - 1], trace[|trace| - 1];
      LinksDoNotInterfere(p, front, linkId);
      OneDecision(p, LinkOf(Links(p, front), e.obs.linkId), e);
      OnlySnoc(front, e, linkId);
      assert front + [e] == trace;
      var action := Decide(p, LinkOf(Links(p, front), e.obs.linkId), e).1;
      ActionsOfSnoc(Actions(p, front), action, linkId);
      if e.obs.linkId == linkId {
        assert Only(trace, linkId) == Only(front, linkId) + [e];
        assert (Only(front, linkId) + [e])[..|Only(front, linkId)|] == Only(front, linkId);
      }
    }
  }

  lemma {:induction false} OnlyIsIdempotent(trace: seq<Event>, linkId: string)
    ensures Only(Only(trace, linkId), linkId) == Only(trace, linkId)
  {
    if trace != [] {
      var front, e := trace[..|trace| - 1], trace[|trace| - 1];
      OnlyIsIdempotent(front, linkId);
      if e.obs.linkId == linkId {
        OnlySnoc(Only(front, linkId), e, linkId);
      }
    }
  }

  /** Running the healer on the whole trace or on one link's part of it gives that link the same history. */
  lemma FilteredRunAgrees(p: Policy, trace: seq<Event>, linkId: string)
    requires Valid(p.topology)
    ensures LinkOf(Links(p, trace), linkId) == LinkOf(Links(p, Only(trace, linkId)), linkId)
    ensures ActionsOf(Actions(p, trace), linkId) == ActionsOf(Actions(p, Only(trace, linkId)), linkId)
  {
    LinksDoNotInterfere(p, trace, linkId);
    LinksDoNotInterfere(p, Only(trace, linkId), linkId);
    OnlyIsIdempotent(trace, linkId);
  }

  // ------------------------------------------------------------------ specification without counters

  /** The required streak, read as at least one. */
  function Needed(p: Policy): nat {
    Max(1, p.thresholds.consecutive)
  }

  /** Observation `n` completes a streak: it and enough observations before it were hot. */
  ghost predicate Armed(p: Policy, trace: seq<Event>, n: nat)
    requires n < |trace|
  {
    && Needed(p) <= n + 1
    && forall i :: n + 1 - Needed(p) <= i <= n ==> trace[i].obs.pFail10m >= p.thresholds.pFail
  }

  /** No earlier firing, or the latest one lies at least the hysteresis back. */
  ghost predicate Rested(p: Policy, trace: seq<Event>, n: nat)
    requires Valid(p.topology) && n < |trace|
    decreases n, 0
  {
    forall j :: 0 <= j < n && Fires(p, trace, j) && (forall k :: j < k < n ==> !Fires(p, trace, k)) ==>
      Now(trace[n]) - Now(trace[j]) >= p.thresholds.hysteresis
  }

  /** Whether observation `n` must cause a reroute, said without any counter. */
  ghost predicate Fires(p: Policy, trace: seq<Event>, n: nat)
    requires Valid(p.topology) && n < |trace|
    decreases n, 1
  {
    Armed(p, trace, n) && Rested(p, trace, n) && Resolves(p, trace[n].obs.linkId)
  }

  /** `c` is the length of the longest suffix of hot observations. */
  ghost predicate IsStreak(p: Policy, trace: seq<Event>, c: int) {
    && 0 <= c <= |trace|
    && (forall i :: |trace| - c <= i < |trace| ==> trace[i].obs.pFail10m >= p.thresholds.pFail)
    && (c < |trace| ==> trace[|trace| - 1 - c].obs.pFail10m < p.thresholds.pFail)
  }

  /** `last` is the time of the latest firing, if there was one. */
  ghost predicate IsLastFiring(p: Policy, trace: seq<Event>, last: Option<real>)
    requires Valid(p.topology)
  {
    match last
    case None => forall j :: 0 <= j < |trace| ==> !Fires(p, trace, j)
    case Some(t) => exists j :: 0 <= j < |trace| && Fires(p, trace, j) && t == Now(trace[j])
                             && forall k :: j < k < |trace| ==> !Fires(p, trace, k)
  }

  ghost predicate Tracks(p: Policy, trace: seq<Event>, link: Link)
    requires Valid(p.topology)
  {
    && IsStreak(p, trace, link.consecutive)
    && link.observations == |trace|
    && IsLastFiring(p, trace, link.lastReroute)
    && link.rerouted == link.lastReroute.Some?
  }

  lemma {:induction false} FiresLooksBack(p: Policy, trace: seq<Event>, more: seq<Event>, n: nat)
    requires Valid(p.topology) && n < |trace|
    ensures Fires(p, trace, n) <==> Fires(p, trace + more, n)
    ensures Rested(p, trace, n) <==> Rested(p, trace + more, n)
    decreases n
  {
    var longer := trace + more;
    assert forall i :: 0 <= i < |trace| ==> longer[i] == trace[i];
    forall j | 0 <= j < n
      ensures Fires(p, trace, j) <==> Fires(p, longer, j)
    {
      FiresLooksBack(p, trace, more, j);
    }
    assert Rested(p, trace, n) <==> Rested(p, longer, n);
    assert Armed(p, trace, n) <==> Armed(p, longer, n);
    assert Fires(p, trace, n) <==> Armed(p, trace, n) && Rested(p, trace, n) && Resolves(p, trace[n].obs.linkId);
  }

  /** The hysteresis test on the stored timestamp decides exactly whether the link is rested. */
  lemma RestedIffNotHeldOff(p: Policy, front: seq<Event>, e: Event, link: Link)
    requires Valid(p.topology) && IsLastFiring(p, front, link.lastReroute)
    ensures Rested(p, front + [e], |front|) <==> !HeldOff(p, link.lastReroute, Now(e))
  {
    hide Fires, Now;
    var trace := front + [e];
    forall j | 0 <= j < |front|
      ensures Fires(p, front, j) <==> Fires(p, trace, j)
    {
      FiresLooksBack(p, front, [e], j);
    }
    assert trace[|front|] == e;
    assert forall i :: 0 <= i < |front| ==> trace[i] == front[i];
  }

  /** Counting to the threshold decides exactly whether the streak is complete. */
  lemma ArmedIffCounted(p: Policy, front: seq<Event>, e: Event, link: Link)
    requires IsStreak(p, front, link.consecutive)
    ensures Armed(p, front + [e], |front|) <==> Hot(p, e) && link.consecutive + 1 >= p.thresholds.consecutive
    ensures IsStreak(p, front + [e], if Hot(p, e) then link.consecutive + 1 else 0)
  {
    var trace := front + [e];
    assert trace[|front|] == e;
    assert forall i :: 0 <= i < |front| ==> trace[i] == front[i];
    if Hot(p, e) && link.consecutive + 1 < p.thresholds.consecutive && link.consecutive < |front| {
      assert !Hot(p, trace[|front| - 1 - link.consecutive]);
    }
  }

  /** The action the specification prescribes for observation `n`. */
  ghost predicate Prescribed(p: Policy, trace: seq<Event>, n: nat, action: Action)
    requires Valid(p.topology) && n < |trace|
  {
    var linkId := trace[n].obs.linkId;
    && action.linkId == linkId
    && (action.BelowThreshold? <==> trace[n].obs.pFail10m < p.thresholds.pFail)
    && (action.Counting? <==> trace[n].obs.pFail10m >= p.thresholds.pFail && !Armed(p, trace, n))
    && (action.SuppressedHysteresis? <==> Armed(p, trace, n) && !Rested(p, trace, n))
    && (action.NoProtectionPath? <==> Armed(p, trace, n) && Rested(p, trace, n) && !Resolves(p, linkId))
    && (action.RerouteEmitted? <==> Fires(p, trace, n))
    && (action.RerouteEmitted? ==>
          && Some(action.payload.fromPath) == HealerPath(p.topology, linkId)
          && Some(action.payload.toPath) == ProtectionPath(p.topology, linkId)
          && action.payload.linkId == linkId && action.payload.reason == "soft_fail_predicted edfa_or_transceiver_aging"
          && action.payload.pFail == trace[n].obs.pFail10m
          && action.payload.sIf == trace[n].obs.sIf && action.payload.sAe == trace[n].obs.sAe
          && action.payload.horizonS == p.thresholds.horizonS
          && action.payload.tsUnixMs == if trace[n].obs.tsUnixMs != 0 then trace[n].obs.tsUnixMs
                                        else Truncate(trace[n].clockStamp * 1000.0))
    && (action.Counting? ==> IsStreak(p, trace[..n + 1], action.consecutive))
    && (action.SuppressedHysteresis? ==> IsStreak(p, trace[..n + 1], action.consecutive))
  }

  lemma TracksOneMore(p: Policy, front: seq<Event>, e: Event, link: Link)
    requires Valid(p.topology) && Tracks(p, front, link)
    ensures Tracks(p, front + [e], Decide(p, link, e).0)
    ensures Prescribed(p, front + [e], |front|, Decide(p, link, e).1)
  {
    hide Armed, Rested, IsStreak, IsLastFiring;
    var trace := front + [e];
    ArmedIffCounted(p, front, e, link);
    RestedIffNotHeldOff(p, front, e, link);
    assert trace[|front|] == e && trace[..|trace|] == trace;
    LastFiringOneMore(p, front, e, link.lastReroute);
  }

  lemma LastFiringOneMore(p: Policy, front: seq<Event>, e: Event, last: Option<real>)
    requires Valid(p.topology) && IsLastFiring(p, front, last)
    ensures IsLastFiring(p, front + [e], if Fires(p, front + [e], |front|) then Some(Now(e)) else last)
  {
    hide Fires;
    var trace := front + [e];
    forall j | 0 <= j < |front|
      ensures Fires(p, front, j) <==> Fires(p, trace, j)
    {
      FiresLooksBack(p, front, [e], j);
    }
    assert trace[|front|] == e;
    if !Fires(p, trace, |front|) && last.Some? {
      var j :| 0 <= j < |front| && Fires(p, front, j) && last.value == Now(front[j])
               && forall k :: j < k < |front| ==> !Fires(p, front, k);
      assert Fires(p, trace, j) && last.value == Now(trace[j]);
    }
  }

  lemma {:induction false} LinkTracksTrace(p: Policy, trace: seq<Event>)
    requires Valid(p.topology)
    ensures Tracks(p, trace, LinkAfter(p, trace))
  {
    if trace != [] {
      var front := trace[..|trace| - 1];
      LinkTracksTrace(p, front);
      TracksOneMore(p, front, trace[|trace| - 1], LinkAfter(p, front));
      assert front + [trace[|trace| - 1]] == trace;
    }
  }

  /** Every action of the counting machine is the one the counter-free specification prescribes. */
  lemma {:induction false} HealerMeetsSpec(p: Policy, trace: seq<Event>, n: nat)
    requires Valid(p.topology) && n < |trace|
    ensures Prescribed(p, trace, n, LinkActions(p, trace)[n])
    decreases |trace|
  {
    hide Fires, Rested, IsStreak, Decide, Resolves, Truncate;
    var front, e := trace[..|trace| - 1], trace[|trace| - 1];
    assert front + [e] == trace;
    if n == |front| {
      LinkTracksTrace(p, front);
      TracksOneMore(p, front, e, LinkAfter(p, front));
    } else {
      HealerMeetsSpec(p, front, n);
      FiresLooksBack(p, front, [e], n);
      assert trace[n] == front[n] && trace[..n + 1] == front[..n + 1];
      assert forall i :: 0 <= i <= n ==> trace[i] == front[i];
    }
  }

  // ------------------------------------------------------------------ emission rate

  /** The times at which a single link's trace emitted. */
  function EmissionTimes(p: Policy, trace: seq<Event>): seq<real>
    requires Valid(p.topology)
  {
    if trace == [] then []
    else
      var before := EmissionTimes(p, trace[..|trace| - 1]);
      if LinkActions(p, trace)[|trace| - 1].RerouteEmitted? then before + [Now(trace[|trace| - 1])] else before
  }

  ghost predicate Spaced(times: seq<real>, gap: real) {
    forall i :: 0 < i < |times| ==> times[i] - times[i - 1] >= gap
  }

  lemma {:induction false} EmissionsSpaced(p: Policy, trace: seq<Event>)
    requires Valid(p.topology)
    ensures Spaced(EmissionTimes(p, trace), p.thresholds.hysteresis)
    ensures var times := EmissionTimes(p, trace);
      LinkAfter(p, trace).lastReroute == if times == [] then None else Some(times[|times| - 1])
  {
    hide Decide;
    if trace != [] {
      var front := trace[..|trace| - 1];
      EmissionsSpaced(p, front);
      OneDecision(p, LinkAfter(p, front), trace[|trace| - 1]);
    }
  }

  lemma {:induction false} SpacedFarApart(times: seq<real>, gap: real, i: nat, j: nat)
    requires Spaced(times, gap) && i <= j < |times|
    ensures times[j] - times[i] >= (j - i) as real * gap
    decreases j
  {
    if i < j {
      SpacedFarApart(times, gap, i, j - 1);
      assert (j - i) as real * gap == (j - 1 - i) as real * gap + gap;
    }
  }

  /** Even when timestamps run backwards between emissions, emissions `i` and `j` are (j-i) hysteresis apart. */
  lemma EmissionGap(p: Policy, trace: seq<Event>, i: nat, j: nat)
    requires Valid(p.topology) && i <= j < |EmissionTimes(p, trace)|
    ensures EmissionTimes(p, trace)[j] - EmissionTimes(p, trace)[i] >= (j - i) as real * p.thresholds.hysteresis
  {
    hide EmissionTimes, Spaced;
    EmissionsSpaced(p, trace);
    SpacedFarApart(EmissionTimes(p, trace), p.thresholds.hysteresis, i, j);
  }

  // ------------------------------------------------------------------ the same in milliseconds

  /** Every observation carries a timestamp of its own. */
  ghost predicate Stamped(trace: seq<Event>) {
    forall i :: 0 <= i < |trace| ==> trace[i].obs.tsUnixMs != 0
  }

  /** A timestamp is in milliseconds, the clock in seconds, and the clock only stands in for a missing timestamp. */
  lemma NowInMilliseconds(e: Event)
    ensures e.obs.tsUnixMs != 0 ==> Now(e) * 1000.0 == e.obs.tsUnixMs as real
    ensures e.obs.tsUnixMs == 0 ==> Now(e) == e.clockNow
  {
  }

  /** The timestamps, in milliseconds, of the observations of a single link's trace that emitted. */
  function EmissionStamps(p: Policy, trace: seq<Event>): (r: seq<int>)
    requires Valid(p.topology)
  {
    if trace == [] then []
    else
      var before := EmissionStamps(p, trace[..|trace| - 1]);
      if LinkActions(p, trace)[|trace| - 1].RerouteEmitted? then before + [trace[|trace| - 1].obs.tsUnixMs] else before
  }

  lemma {:induction false} StampsAreTimes(p: Policy, trace: seq<Event>)
    requires Valid(p.topology) && Stamped(trace)
    ensures |EmissionStamps(p, trace)| == |EmissionTimes(p, trace)|
    ensures forall i :: 0 <= i < |EmissionTimes(p, trace)| ==>
      EmissionStamps(p, trace)[i] as real == EmissionTimes(p, trace)[i] * 1000.0
  {
    hide Now, LinkActions;
    if trace != [] {
      StampsAreTimes(p, trace[..|trace| - 1]);
      NowInMilliseconds(trace[|trace| - 1]);
    }
  }

  /** Emissions i and j of a link lie at least (j - i) times a thousand times the hysteresis apart, in milliseconds. */
  lemma EmissionGapMillis(p: Policy, trace: seq<Event>, i: nat, j: nat)
    requires Valid(p.topology) && Stamped(trace) && i <= j < |EmissionStamps(p, trace)|
    ensures (EmissionStamps(p, trace)[j] - EmissionStamps(p, trace)[i]) as real
            >= (j - i) as real * (1000.0 * p.thresholds.hysteresis)
  {
    hide EmissionStamps, EmissionTimes;
    StampsAreTimes(p, trace);
    EmissionGap(p, trace, i, j);
    Thousandfold(EmissionTimes(p, trace)[j] - EmissionTimes(p, trace)[i], (j - i) as real, p.thresholds.hysteresis);
  }

  lemma Thousandfold(gap: real, count: real, hysteresis: real)
    requires gap >= count * hysteresis
    ensures gap * 1000.0 >= count * (1000.0 * hysteresis)
  {
  }

  /** Observation `j` is the latest one before `n` that caused a reroute. */
  ghost predicate LatestFiring(p: Policy, trace: seq<Event>, n: nat, j: nat)
    requires Valid(p.topology) && n < |trace|
  {
    j < n && Fires(p, trace, j) && forall k :: j < k < n ==> !Fires(p, trace, k)
  }

  /**
   * With timestamps, an observation completing a streak is suppressed exactly when it comes less than
   * a thousand times the hysteresis, in milliseconds, after the latest one that caused a reroute.
   */
  lemma SuppressedIffSoon(p: Policy, trace: seq<Event>, n: nat)
    requires Valid(p.topology) && Stamped(trace) && n < |trace|
    ensures LinkActions(p, trace)[n].SuppressedHysteresis? <==>
            Armed(p, trace, n) && (exists j: nat :: TooSoon(p, trace, n, j))
  {
    hide Now, LinkActions, Armed, Fires, Rested, LatestFiring, TooSoon;
    HealerMeetsSpec(p, trace, n);
    RestedIffNotSoon(p, trace, n);
  }

  /** In milliseconds, `n` comes less than a thousand times the hysteresis after the latest firing `j`. */
  ghost predicate TooSoon(p: Policy, trace: seq<Event>, n: nat, j: nat)
    requires Valid(p.topology) && n < |trace|
  {
    LatestFiring(p, trace, n, j)
    && (trace[n].obs.tsUnixMs - trace[j].obs.tsUnixMs) as real < 1000.0 * p.thresholds.hysteresis
  }

  lemma RestedIffNotSoon(p: Policy, trace: seq<Event>, n: nat)
    requires Valid(p.topology) && Stamped(trace) && n < |trace|
    ensures Rested(p, trace, n) <==> forall j: nat :: !TooSoon(p, trace, n, j)
  {
    hide Now, Fires;
    forall j: nat | j < n
      ensures Now(trace[n]) - Now(trace[j]) < p.thresholds.hysteresis <==>
              (trace[n].obs.tsUnixMs - trace[j].obs.tsUnixMs) as real < 1000.0 * p.thresholds.hysteresis
    {
      NowInMilliseconds(trace[n]);
      NowInMilliseconds(trace[j]);
    }
    if !Rested(p, trace, n) {
      var j: nat :| j < n && Fires(p, trace, j) && (forall k :: j < k < n ==> !Fires(p, trace, k))
                    && Now(trace[n]) - Now(trace[j]) < p.thresholds.hysteresis;
      assert LatestFiring(p, trace, n, j);
      assert TooSoon(p, trace, n, j);
    }
  }

  function CountWithin(times: seq<real>, from: real, span: real): nat {
    if times == [] then 0
    else CountWithin(times[..|times| - 1], from, span)
         + if from <= times[|times| - 1] <= from + span then 1 else 0
  }

  /** `n` gaps laid end to end. */
  function Gaps(n: nat, gap: real): real {
    if n == 0 then 0.0 else Gaps(n - 1, gap) + gap
  }

  lemma {:induction false} GapsAreMultiples(n: nat, gap: real)
    ensures Gaps(n, gap) == n as real * gap
  {
    if n > 0 {
      GapsAreMultiples(n - 1, gap);
      assert n as real * gap == (n - 1) as real * gap + gap;
    }
  }

  /** Index `i` is the latest entry inside the span, and the entries before it already fill `count - 1` gaps. */
  ghost predicate Latest(times: seq<real>, gap: real, from: real, span: real, count: nat, i: int) {
    && 0 <= i < |times| && 0 < count
    && from <= times[i] <= from + span
    && Gaps(count - 1, gap) <= times[i] - from
    && forall k :: i < k < |times| ==> times[k] > from + span
  }

  lemma {:induction false} SpacedIncreasing(times: seq<real>, gap: real, i: nat, j: nat)
    requires Spaced(times, gap) && gap > 0.0 && i < j < |times|
    ensures times[j] - times[i] >= gap
    decreases j
  {
    if i < j - 1 {
      SpacedIncreasing(times, gap, i, j - 1);
    }
  }

  lemma {:induction false} CountWithinBound(times: seq<real>, gap: real, from: real, span: real) returns (i: int)
    requires Spaced(times, gap) && gap > 0.0
    ensures CountWithin(times, from, span) > 0 ==>
      Latest(times, gap, from, span, CountWithin(times, from, span), i)
  {
    i := 0;
    if times != [] {
      var front, t := times[..|times| - 1], times[|times| - 1];
      var before := CountWithinBound(front, gap, from, span);
      if CountWithin(front, from, span) > 0 {
        assert times[before] == front[before];
        SpacedIncreasing(times, gap, before, |front|);
        assert forall k :: before < k < |front| ==> times[k] == front[k];
      }
      i := if from <= t <= from + span then |front| else before;
    }
  }

  lemma AtMostFloor(n: nat, gap: real, span: real)
    requires gap > 0.0 && n as real * gap <= span
    ensures n <= (span / gap).Floor
  {
    assert span / gap - n as real == (span - n as real * gap) / gap;
    assert (span - n as real * gap) / gap >= 0.0;
  }

  lemma SpacedFewWithin(times: seq<real>, gap: real, from: real, span: real)
    requires Spaced(times, gap) && gap > 0.0 && span >= 0.0
    ensures CountWithin(times, from, span) <= (span / gap).Floor + 1
  {
    var i := CountWithinBound(times, gap, from, span);
    var c := CountWithin(times, from, span);
    var n: nat := if c > 0 then c - 1 else 0;
    GapsAreMultiples(n, gap);
    assert Gaps(n, gap) <= span;
    AtMostFloor(n, gap, span);
  }

  /** Any span of time holds at most floor(span / hysteresis) + 1 emissions of a link. */
  lemma EmissionRate(p: Policy, trace: seq<Event>, from: real, span: real)
    requires Valid(p.topology) && p.thresholds.hysteresis > 0.0 && span >= 0.0
    ensures CountWithin(EmissionTimes(p, trace), from, span) <= (span / p.thresholds.hysteresis).Floor + 1
  {
    hide EmissionTimes, Spaced, CountWithin;
    EmissionsSpaced(p, trace);
    SpacedFewWithin(EmissionTimes(p, trace), p.thresholds.hysteresis, from, span);
  }
}
