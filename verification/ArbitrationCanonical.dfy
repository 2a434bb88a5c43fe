/**
  The second reading of the journals: what the offline verification collects from the records that
  the online audit has walked.
 */
module ArbitrationCanonical {
  import opened Wrappers
  import opened ArbitrationAudit
  import opened ArbitrationRuns
  import opened ArbitrationWriter

  datatype TradeItem = TradeItem(id: int, observation: Digest, record: Digest)

  datatype Correction = Correction(item: TradeItem, kind: Kind)

  datatype Frame = Frame(first: int, final: int, digest: Digest, lane: Option<string>)

  /** A rebootstrap, its snapshot boundary and the number of frames collected before it. */
  datatype Reboot = Reboot(boundary: Option<int>, frameIndex: nat, lane: string)

  datatype LastEvent = NoDepth | LastFrame | LastGap

  datatype Canonical = Canonical(
    trades: seq<TradeItem>,
    corrections: seq<Correction>,
    floor: Option<int>,
    startup: bool,
    depth: seq<Frame>,
    reboots: seq<Reboot>,
    lastDepth: LastEvent,
    scope: Option<string>,
    servingLane: Option<string>,
    artifacts: seq<string>)

  const NOTHING := Canonical([], [], None, false, [], [], NoDepth, None, None, [])

  /** The floor the window starts at: the first one declared. */
  function FirstFloor(k: Canonical, floor: Floor): Option<Canonical> {
    if k.floor.Some? || floor.NoFloor? then Some(k)
    else if floor.IntFloor? then Some(k.(floor := Some(floor.n)))
    else None
  }

  predicate ScopeKnown(scope: Option<string>) {
    scope.None? || scope.value == "HANDOFF" || scope.value == "SEALED_DRAIN"
  }

  /**
    One record of `_canonical_observations`, nothing when it raises.  The declared artifact of an
    opening record and its prior ones come together in `artifacts`.
   */
  function CollectStep(k: Canonical, p: Payload): Option<Canonical> {
    match p
    case Started(_, floor, artifacts) => FirstFloor(k.(startup := true, scope := None, artifacts := k.artifacts + artifacts), floor)
    case Resumed(_, _, floor, _, _, artifacts) => FirstFloor(k.(scope := None, artifacts := k.artifacts + artifacts), floor)
    case TradeObservation(id, observation, record) =>
      if id.None? || observation.None? || record.None? then None
      else Some(k.(trades := k.trades + [TradeItem(id.value, observation.value, record.value)]))
    case TradeCorrection(id, observation, record, kind) =>
      if id.None? || observation.None? || record.None? then None
      else Some(k.(corrections := k.corrections + [Correction(TradeItem(id.value, observation.value, record.value), kind)]))
    case DepthObservation(first, final, lane, observation, _) =>
      if first.None? || final.None? || observation.None? then None
      else
        Some(k.(depth := k.depth + [Frame(first.value, final.value, observation.value, lane)],
                lastDepth := LastFrame))
    case DepthRebootstrap(_, boundary, lane) =>
      if lane.None? then None
      else Some(k.(reboots := k.reboots + [Reboot(boundary, |k.depth|, lane.value)]))
    case Gap(_) => Some(k.(lastDepth := LastGap))
    case Terminal(_, _, scope, servingLane) =>
      if ScopeKnown(scope) then Some(k.(scope := scope, servingLane := servingLane)) else None
    case _ => Some(k)
  }

  function Collect(ps: seq<Payload>): Option<Canonical> {
    if ps == [] then Some(NOTHING)
    else
      var before := Collect(ps[..|ps| - 1]);
      if before.None? then None else CollectStep(before.value, ps[|ps| - 1])
  }

  /** `_canonical_observations`, over the records of all segments in order. */
  method CanonicalObservations(ps: seq<Payload>) returns (r: Option<Canonical>)
    ensures r == Collect(ps)
  {
    hide CollectStep;
    var k := NOTHING;
    for i := 0 to |ps|
      invariant Collect(ps[..i]) == Some(k)
    {
      assert ps[..i + 1][..i] == ps[..i];
      var next := CollectStep(k, ps[i]);
      if next.None? {
        CollectStops(ps, i + 1);
        return None;
      }
      k := next.value;
    }
    assert ps[..|ps|] == ps;
    return Some(k);
  }

  lemma {:induction false} CollectStops(ps: seq<Payload>, i: nat)
    requires i <= |ps| && Collect(ps[..i]).None?
    ensures Collect(ps).None?
  {
    hide CollectStep;
    if i < |ps| {
      assert ps[..|ps| - 1][..i] == ps[..i];
      CollectStops(ps[..|ps| - 1], i);
    } else {
      assert ps[..i] == ps;
    }
  }

  lemma CollectNothing()
    ensures Collect([]) == Some(NOTHING)
  {
  }

  lemma CollectNext(ps: seq<Payload>, p: Payload)
    ensures Collect(ps + [p]) == if Collect(ps).None? then None else CollectStep(Collect(ps).value, p)
  {
    assert (ps + [p])[..|ps|] == ps;
  }

  // ----- which audited journals can be collected -----

  /** The two fields that the second reading needs and the audit does not check. */
  predicate Collectable(p: Payload) {
    (p.Terminal? ==> ScopeKnown(p.scope)) && (p.DepthRebootstrap? ==> p.rebootLane.Some?)
  }

  ghost predicate AllCollectable(ps: seq<Payload>) {
    forall i :: 0 <= i < |ps| ==> Collectable(ps[i])
  }

  lemma AuditedStepCollects(c: Core, k: Canonical, p: Payload)
    requires CoreStep(c, p).Some?
    ensures CollectStep(k, p).Some? <==> Collectable(p)
  {
    match p
    case TradeObservation(_, _, _) =>
    case TradeCorrection(_, _, _, _) =>
    case DepthObservation(_, _, _, _, _) =>
    case _ =>
  }

  /**
    The second reading fails on an audited journal exactly when a terminal declares an unknown
    completion scope or a rebootstrap does not name its lane.
   */
  lemma {:induction false} CollectsExactly(ps: seq<Payload>)
    requires CoreRun(ps).Some?
    ensures Collect(ps).Some? <==> AllCollectable(ps)
  {
    hide CoreStep, CollectStep, Collectable;
    if ps != [] {
      var last := |ps| - 1;
      CollectsExactly(ps[..last]);
      if Collect(ps[..last]).Some? {
        AuditedStepCollects(CoreRun(ps[..last]).value, Collect(ps[..last]).value, ps[last]);
      }
      assert AllCollectable(ps) <==> AllCollectable(ps[..last]) && Collectable(ps[last]) by {
        if AllCollectable(ps) {
          forall i | 0 <= i < last ensures Collectable(ps[..last][i]) {
            assert Collectable(ps[i]);
          }
        }
        if AllCollectable(ps[..last]) && Collectable(ps[last]) {
          forall i | 0 <= i < |ps| ensures Collectable(ps[i]) {
            assert i < last ==> Collectable(ps[..last][i]);
          }
        }
      }
    }
  }

  const OTHER_CLOSING := Terminal(true, Counters(0, 0, 0, 0), Some("OTHER"), None)

  function OtherScopeSet(digest: Body -> Digest): seq<Segment> {
    [Segment(Write(digest, [Opening("BTCUSDT"), OTHER_CLOSING]), 0)]
  }

  /** Such a journal exists: a closed set with an unknown completion scope passes the audit. */
  lemma {:induction false} AuditedButNotCollected(digest: Body -> Digest)
    ensures Accepted(digest, OtherScopeSet(digest), false)
    ensures Collect(Flatten(OtherScopeSet(digest))).None?
  {
    hide RunFile, Write, Collect, CoreStep;
    var opening := Opening("BTCUSDT");
    TwoCores();
    EmptyFile(digest, FRESH_AUDIT);
    WrittenStep(digest, FRESH_AUDIT, [], opening);
    assert [] + [opening] == [opening];
    WrittenStep(digest, FRESH_AUDIT, [opening], OTHER_CLOSING);
    assert [opening] + [OTHER_CLOSING] == [opening, OTHER_CLOSING];
    WriteSize(digest, [opening, OTHER_CLOSING]);
    OneSegment(digest, OtherScopeSet(digest)[0]);
    CollectNext([opening], OTHER_CLOSING);
  }

  lemma TwoCores()
    ensures
      var after := FRESH_CORE.(records := 1, started := true);
      CoreStep(FRESH_CORE, Opening("BTCUSDT")) == Some(after) && CoreStep(after, OTHER_CLOSING) == Some(after.(records := 2))
  {
  }

  // ----- rebootstraps among frames -----

  ghost predicate InOrder(reboots: seq<Reboot>) {
    forall r, s :: 0 <= r < s < |reboots| ==> reboots[r].frameIndex <= reboots[s].frameIndex
  }

  lemma {:induction false} CollectedInOrder(ps: seq<Payload>)
    requires Collect(ps).Some?
    ensures
      var k := Collect(ps).value;
      InOrder(k.reboots) && forall r :: 0 <= r < |k.reboots| ==> k.reboots[r].frameIndex <= |k.depth|
  {
    if ps != [] {
      CollectedInOrder(ps[..|ps| - 1]);
    }
  }
}
