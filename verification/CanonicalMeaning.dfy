/**
  What the second reading of a journal collects, field by field, told from the payloads.
 */
module CanonicalMeaning {
  import opened Wrappers
  import opened ArbitrationAudit
  import opened ArbitrationCanonical
  import opened ArbitrationHistory

  // ----- lists -----

  /** The positions of the payloads of a kind, in order. */
  ghost function Places(ps: seq<Payload>, tag: Tag): (at: seq<nat>)
    ensures forall j :: 0 <= j < |at| ==> at[j] < |ps| && IsA(ps[at[j]], tag)
    ensures forall i, j :: 0 <= i < j < |at| ==> at[i] < at[j]
    ensures forall i :: 0 <= i < |ps| && IsA(ps[i], tag) ==> i in at
  {
    if ps == [] then []
    else
      var last := |ps| - 1;
      Places(ps[..last], tag) + (if IsA(ps[last], tag) then [last] else [])
  }

  predicate IsTrade(item: TradeItem, p: Payload) {
    p.TradeObservation? && p.id == Some(item.id) && p.observation == Some(item.observation) && p.record == Some(item.record)
  }

  predicate IsCorrection(c: Correction, p: Payload) {
    && p.TradeCorrection? && p.kind == c.kind
    && p.id == Some(c.item.id) && p.observation == Some(c.item.observation) && p.record == Some(c.item.record)
  }

  predicate IsFrame(f: Frame, p: Payload) {
    && p.DepthObservation? && p.lane == f.lane
    && p.first == Some(f.first) && p.final == Some(f.final) && p.observation == Some(f.digest)
  }

  /** The rebootstrap at position `i`, with the number of frames before it. */
  ghost predicate IsReboot(r: Reboot, ps: seq<Payload>, i: nat)
    requires i < |ps|
  {
    && ps[i].DepthRebootstrap? && ps[i].boundary == r.boundary && ps[i].rebootLane == Some(r.lane)
    && r.frameIndex == |Places(ps[..i], Frames)|
  }

  ghost predicate ListsTrades(ps: seq<Payload>, items: seq<TradeItem>) {
    && |items| == |Places(ps, Trades)|
    && forall j :: 0 <= j < |items| ==> IsTrade(items[j], ps[Places(ps, Trades)[j]])
  }

  ghost predicate ListsCorrections(ps: seq<Payload>, cs: seq<Correction>) {
    && |cs| == |Places(ps, Corrections)|
    && forall j :: 0 <= j < |cs| ==> IsCorrection(cs[j], ps[Places(ps, Corrections)[j]])
  }

  ghost predicate ListsFrames(ps: seq<Payload>, fs: seq<Frame>) {
    && |fs| == |Places(ps, Frames)|
    && forall j :: 0 <= j < |fs| ==> IsFrame(fs[j], ps[Places(ps, Frames)[j]])
  }

  ghost predicate ListsReboots(ps: seq<Payload>, rs: seq<Reboot>) {
    && |rs| == |Places(ps, Reboots)|
    && forall j :: 0 <= j < |rs| ==> IsReboot(rs[j], ps, Places(ps, Reboots)[j])
  }

  lemma PlacesNext(ps: seq<Payload>, p: Payload, tag: Tag)
    ensures Places(ps + [p], tag) == Places(ps, tag) + (if IsA(p, tag) then [|ps|] else [])
  {
    assert (ps + [p])[..|ps|] == ps;
  }

  lemma TradesNext(ps: seq<Payload>, k: Canonical, p: Payload)
    requires ListsTrades(ps, k.trades) && CollectStep(k, p).Some?
    ensures ListsTrades(ps + [p], CollectStep(k, p).value.trades)
  {
    hide Places;
    PlacesNext(ps, p, Trades);
    var next, at := CollectStep(k, p).value, Places(ps, Trades);
    forall j | 0 <= j < |at| ensures IsTrade(next.trades[j], (ps + [p])[at[j]]) {
      assert IsTrade(k.trades[j], ps[at[j]]);
    }
  }

  lemma CorrectionsNext(ps: seq<Payload>, k: Canonical, p: Payload)
    requires ListsCorrections(ps, k.corrections) && CollectStep(k, p).Some?
    ensures ListsCorrections(ps + [p], CollectStep(k, p).value.corrections)
  {
    hide Places;
    PlacesNext(ps, p, Corrections);
    var next, at := CollectStep(k, p).value, Places(ps, Corrections);
    forall j | 0 <= j < |at| ensures IsCorrection(next.corrections[j], (ps + [p])[at[j]]) {
      assert IsCorrection(k.corrections[j], ps[at[j]]);
    }
  }

  lemma FramesNext(ps: seq<Payload>, k: Canonical, p: Payload)
    requires ListsFrames(ps, k.depth) && CollectStep(k, p).Some?
    ensures ListsFrames(ps + [p], CollectStep(k, p).value.depth)
  {
    hide Places;
    PlacesNext(ps, p, Frames);
    var next, at := CollectStep(k, p).value, Places(ps, Frames);
    forall j | 0 <= j < |at| ensures IsFrame(next.depth[j], (ps + [p])[at[j]]) {
      assert IsFrame(k.depth[j], ps[at[j]]);
    }
  }

  lemma RebootsNext(ps: seq<Payload>, k: Canonical, p: Payload)
    requires ListsReboots(ps, k.reboots) && ListsFrames(ps, k.depth) && CollectStep(k, p).Some?
    ensures ListsReboots(ps + [p], CollectStep(k, p).value.reboots)
  {
    hide Places;
    PlacesNext(ps, p, Reboots);
    var next, at, all := CollectStep(k, p).value, Places(ps, Reboots), ps + [p];
    assert all[..|ps|] == ps;
    forall j | 0 <= j < |at| ensures IsReboot(next.reboots[j], all, at[j]) {
      assert IsReboot(k.reboots[j], ps, at[j]);
      assert all[..at[j]] == ps[..at[j]];
    }
  }

  // ----- the latest and the first -----

  predicate Opens(p: Payload) { p.Started? || p.Resumed? }

  predicate Bounds(p: Payload) { Opens(p) || p.Terminal? }

  predicate TouchesDepth(p: Payload) { p.DepthObservation? || p.Gap? }

  /** `lastDepth` is the kind of the latest depth record. */
  ghost predicate LastDepthIs(ps: seq<Payload>, last: LastEvent) {
    match last
    case NoDepth => forall i :: 0 <= i < |ps| ==> !TouchesDepth(ps[i])
    case LastFrame => exists i :: 0 <= i < |ps| && ps[i].DepthObservation? && forall j :: i < j < |ps| ==> !TouchesDepth(ps[j])
    case LastGap => exists i :: 0 <= i < |ps| && ps[i].Gap? && forall j :: i < j < |ps| ==> !TouchesDepth(ps[j])
  }

  /** The scope of a TERMINAL that nothing has opened again after. */
  ghost predicate ScopeIs(ps: seq<Payload>, scope: Option<string>) {
    || (scope.None? && forall i :: 0 <= i < |ps| ==> !Bounds(ps[i]))
    || exists i :: 0 <= i < |ps| && Bounds(ps[i]) && (forall j :: i < j < |ps| ==> !Bounds(ps[j]))
         && scope == if ps[i].Terminal? then ps[i].scope else None
  }

  /** The serving lane of the latest TERMINAL. */
  ghost predicate ServingLaneIs(ps: seq<Payload>, lane: Option<string>) {
    || (lane.None? && forall i :: 0 <= i < |ps| ==> !ps[i].Terminal?)
    || exists i :: 0 <= i < |ps| && ps[i].Terminal? && ps[i].servingLane == lane && forall j :: i < j < |ps| ==> !ps[j].Terminal?
  }

  /** The floor of the first opening record that declares one. */
  ghost predicate FloorIs(ps: seq<Payload>, floor: Option<int>) {
    || (floor.None? && forall i :: 0 <= i < |ps| && Opens(ps[i]) ==> ps[i].floor.NoFloor?)
    || exists i :: 0 <= i < |ps| && Opens(ps[i]) && floor.Some? && ps[i].floor == IntFloor(floor.value)
         && forall j :: 0 <= j < i && Opens(ps[j]) ==> ps[j].floor.NoFloor?
  }

  ghost predicate StartupIs(ps: seq<Payload>, startup: bool) {
    startup <==> exists i :: 0 <= i < |ps| && ps[i].Started?
  }

  predicate Names(p: Payload, a: string) {
    Opens(p) && a in p.artifacts
  }

  ghost predicate ArtifactsAre(ps: seq<Payload>, artifacts: seq<string>) {
    forall a :: a in artifacts <==> exists i :: 0 <= i < |ps| && Names(ps[i], a)
  }

  lemma LastDepthNext(ps: seq<Payload>, k: Canonical, p: Payload)
    requires LastDepthIs(ps, k.lastDepth) && CollectStep(k, p).Some?
    ensures LastDepthIs(ps + [p], CollectStep(k, p).value.lastDepth)
  {
    var next, all := CollectStep(k, p).value, ps + [p];
    assert all[|ps|] == p;
    if !TouchesDepth(p) && !k.lastDepth.NoDepth? {
      var i :| 0 <= i < |ps| && (if k.lastDepth.LastFrame? then ps[i].DepthObservation? else ps[i].Gap?)
        && forall j :: i < j < |ps| ==> !TouchesDepth(ps[j]);
      assert all[i] == ps[i];
    }
  }

  lemma ScopeNext(ps: seq<Payload>, k: Canonical, p: Payload)
    requires ScopeIs(ps, k.scope) && CollectStep(k, p).Some?
    ensures ScopeIs(ps + [p], CollectStep(k, p).value.scope)
  {
    var next, all := CollectStep(k, p).value, ps + [p];
    assert all[|ps|] == p;
    if !Bounds(p) && !(forall i :: 0 <= i < |ps| ==> !Bounds(ps[i])) {
      var i :| 0 <= i < |ps| && Bounds(ps[i]) && (forall j :: i < j < |ps| ==> !Bounds(ps[j]))
        && k.scope == if ps[i].Terminal? then ps[i].scope else None;
      assert all[i] == ps[i];
    }
  }

  lemma ServingLaneNext(ps: seq<Payload>, k: Canonical, p: Payload)
    requires ServingLaneIs(ps, k.servingLane) && CollectStep(k, p).Some?
    ensures ServingLaneIs(ps + [p], CollectStep(k, p).value.servingLane)
  {
    var next, all := CollectStep(k, p).value, ps + [p];
    assert all[|ps|] == p;
    if !p.Terminal? && !(forall i :: 0 <= i < |ps| ==> !ps[i].Terminal?) {
      var i :| 0 <= i < |ps| && ps[i].Terminal? && ps[i].servingLane == k.servingLane && forall j :: i < j < |ps| ==> !ps[j].Terminal?;
      assert all[i] == ps[i];
    }
  }

  lemma FloorNext(ps: seq<Payload>, k: Canonical, p: Payload)
    requires FloorIs(ps, k.floor) && CollectStep(k, p).Some?
    ensures FloorIs(ps + [p], CollectStep(k, p).value.floor)
  {
    var next, all := CollectStep(k, p).value, ps + [p];
    assert all[|ps|] == p;
    if k.floor.Some? {
      var i :| 0 <= i < |ps| && Opens(ps[i]) && ps[i].floor == IntFloor(k.floor.value)
        && forall j :: 0 <= j < i && Opens(ps[j]) ==> ps[j].floor.NoFloor?;
      assert all[i] == ps[i];
    }
  }

  lemma StartupNext(ps: seq<Payload>, k: Canonical, p: Payload)
    requires StartupIs(ps, k.startup) && CollectStep(k, p).Some?
    ensures StartupIs(ps + [p], CollectStep(k, p).value.startup)
  {
    var next, all := CollectStep(k, p).value, ps + [p];
    assert all[|ps|] == p;
    if k.startup {
      var i :| 0 <= i < |ps| && ps[i].Started?;
      assert all[i].Started?;
    }
  }

  lemma ArtifactsNext(ps: seq<Payload>, k: Canonical, p: Payload)
    requires ArtifactsAre(ps, k.artifacts) && CollectStep(k, p).Some?
    ensures ArtifactsAre(ps + [p], CollectStep(k, p).value.artifacts)
  {
    hide Names;
    var next, all := CollectStep(k, p).value, ps + [p];
    assert all[|ps|] == p;
    forall a ensures a in next.artifacts <==> a in k.artifacts || Names(p, a) {
      StepNames(k, p, a);
    }
    forall a ensures a in next.artifacts <==> exists i :: 0 <= i < |all| && Names(all[i], a) {
      if a in k.artifacts {
        var i :| 0 <= i < |ps| && Names(ps[i], a);
        assert Names(all[i], a);
      }
      if exists i :: 0 <= i < |all| && Names(all[i], a) {
        var i :| 0 <= i < |all| && Names(all[i], a);
        assert i < |ps| ==> Names(ps[i], a);
      }
    }
  }

  lemma StepNames(k: Canonical, p: Payload, a: string)
    requires CollectStep(k, p).Some?
    ensures a in CollectStep(k, p).value.artifacts <==> a in k.artifacts || Names(p, a)
  {
  }

  // ----- the whole reading -----

  ghost predicate Collected(ps: seq<Payload>, k: Canonical) {
    && ListsTrades(ps, k.trades) && ListsCorrections(ps, k.corrections)
    && ListsFrames(ps, k.depth) && ListsReboots(ps, k.reboots)
    && LastDepthIs(ps, k.lastDepth) && ScopeIs(ps, k.scope) && ServingLaneIs(ps, k.servingLane)
    && FloorIs(ps, k.floor) && StartupIs(ps, k.startup) && ArtifactsAre(ps, k.artifacts)
  }

  lemma NothingIsCollected()
    ensures Collected([], NOTHING)
  {
  }

  /**
    Everything the second reading holds is in the journal, in order, and nothing is left out:
    trades, corrections, frames, rebootstraps with their place among the frames, the latest depth
    record, scope and serving lane, the first declared floor, startup and the artifacts.
   */
  lemma {:induction false} CollectMeans(ps: seq<Payload>)
    requires Collect(ps).Some?
    ensures Collected(ps, Collect(ps).value)
  {
    hide CollectStep, ListsTrades, ListsCorrections, ListsFrames, ListsReboots, LastDepthIs, ScopeIs, ServingLaneIs, FloorIs;
    hide StartupIs, ArtifactsAre;
    if ps == [] {
      NothingIsCollected();
    } else {
      var front, p := ps[..|ps| - 1], ps[|ps| - 1];
      CollectMeans(front);
      var k := Collect(front).value;
      assert front + [p] == ps;
      TradesNext(front, k, p);
      CorrectionsNext(front, k, p);
      FramesNext(front, k, p);
      RebootsNext(front, k, p);
      LastDepthNext(front, k, p);
      ScopeNext(front, k, p);
      ServingLaneNext(front, k, p);
      FloorNext(front, k, p);
      StartupNext(front, k, p);
      ArtifactsNext(front, k, p);
    }
  }
}
