/**
  The offline check of the depth stream: the comparison of published frames and rebootstraps with
  the trusted part of the raw generations.
 */
module ArbitrationDepth {
  import opened Wrappers
  import opened ArbitrationAudit
  import opened ArbitrationRuns
  import opened ArbitrationCanonical
  import opened ArbitrationWriter
  import opened ArbitrationOracle

  // ----- published frames and rebootstraps -----

  datatype Mode = Mode(tolerant: bool, unsealed: set<string>)

  const STRICT := Mode(false, {})

  /** Journals say PRIMARY and SHADOW where the raw roots are named p and s. */
  function LaneRoot(name: string): string {
    if name == "PRIMARY" then "p" else if name == "SHADOW" then "s" else name
  }

  predicate InOracle(oracle: Oracle, f: Frame) {
    && f.lane.Some?
    && var lane := LaneRoot(f.lane.value);
       lane in oracle && f.final in oracle[lane] && Variant(f.first, f.digest) in oracle[lane][f.final]
  }

  /** The first frame after a rebootstrap is of its lane and starts after its snapshot. */
  predicate Follows(r: Reboot, f: Frame) {
    f.lane.Some? && LaneRoot(r.lane) == LaneRoot(f.lane.value) && r.boundary.Some? && r.boundary.value < f.first
  }

  /** One frame: the number of rebootstraps matched so far, or nothing when the frame is refused. */
  function FrameStep(oracle: Oracle, reboots: seq<Reboot>, mode: Mode, next: nat, f: Frame, i: nat): Option<nat> {
    if f.lane.None? then None
    else
      var lane := LaneRoot(f.lane.value);
      if mode.tolerant && (lane !in oracle || oracle[lane] == map[]) then Some(next)
      else if lane !in oracle then None
      else
        var due := next < |reboots| && reboots[next].frameIndex == i;
        if due && !Follows(reboots[next], f) then None
        else if !InOracle(oracle, f) && !(mode.tolerant && lane in mode.unsealed) then None
        else Some(if due then next + 1 else next)
  }

  function FramePass(oracle: Oracle, reboots: seq<Reboot>, mode: Mode, frames: seq<Frame>): Option<nat> {
    if frames == [] then Some(0)
    else
      var last := |frames| - 1;
      var before := FramePass(oracle, reboots, mode, frames[..last]);
      if before.None? then None else FrameStep(oracle, reboots, mode, before.value, frames[last], last)
  }

  /** No lane of the oracle holds a range. */
  predicate NoRanges(oracle: Oracle) {
    forall lane :: lane in oracle ==> oracle[lane] == map[]
  }

  /** The closing checks: no open gap, no frame left out at the end, no rebootstrap left alone. */
  predicate FinalBoundary(oracle: Oracle, reboots: seq<Reboot>, frames: seq<Frame>, lastEvent: LastEvent, next: nat) {
    && (next < |reboots| ==> reboots[next].frameIndex < |frames|)
    && match lastEvent
       case LastGap => false
       case LastFrame =>
         && frames != []
         && frames[|frames| - 1].lane.Some?
         && var last, lane := frames[|frames| - 1], LaneRoot(frames[|frames| - 1].lane.value);
            && lane in oracle
            && (forall final :: final in oracle[lane] && last.final + 1 <= final ==>
                  forall v :: v in oracle[lane][final] ==> v.first > last.final + 1)
       case NoDepth => NoRanges(oracle)
  }

  /** `_verify_depth`. */
  method VerifyDepth(oracle: Oracle, reboots: seq<Reboot>, frames: seq<Frame>, lastEvent: LastEvent, mode: Mode, enforceFinal: bool)
    returns (ok: bool)
    ensures ok ==
      (FramePass(oracle, reboots, mode, frames).Some?
       && (enforceFinal ==> FinalBoundary(oracle, reboots, frames, lastEvent, FramePass(oracle, reboots, mode, frames).value)))
  {
    hide FinalBoundary, InOracle, Follows;
    var next: nat := 0;
    for i := 0 to |frames|
      invariant FramePass(oracle, reboots, mode, frames[..i]) == Some(next)
    {
      assert frames[..i + 1][..i] == frames[..i];
      var f := frames[i];
      if f.lane.None? {
        FramePassStops(oracle, reboots, mode, frames, i + 1);
        return false;
      }
      var lane := LaneRoot(f.lane.value);
      if mode.tolerant && (lane !in oracle || oracle[lane] == map[]) {
        continue;
      }
      var matched: nat := next;
      if next < |reboots| && reboots[next].frameIndex == i {
        if !Follows(reboots[next], f) {
          FramePassStops(oracle, reboots, mode, frames, i + 1);
          return false;
        }
        matched := next + 1;
      }
      if lane !in oracle || (!InOracle(oracle, f) && !(mode.tolerant && lane in mode.unsealed)) {
        FramePassStops(oracle, reboots, mode, frames, i + 1);
        return false;
      }
      next := matched;
    }
    assert frames[..|frames|] == frames;
    return !enforceFinal || FinalBoundary(oracle, reboots, frames, lastEvent, next);
  }

  lemma {:induction false} FramePassStops(oracle: Oracle, reboots: seq<Reboot>, mode: Mode, frames: seq<Frame>, i: nat)
    requires i <= |frames| && FramePass(oracle, reboots, mode, frames[..i]).None?
    ensures FramePass(oracle, reboots, mode, frames).None?
  {
    hide FrameStep;
    if i < |frames| {
      assert frames[..|frames| - 1][..i] == frames[..i];
      FramePassStops(oracle, reboots, mode, frames[..|frames| - 1], i);
    } else {
      assert frames[..i] == frames;
    }
  }

  // ----- lanes, evidence and agreement, told from the raw generations -----

  /** Journals say PRIMARY for the raw lane p and SHADOW for s; any other name is its own lane. */
  ghost predicate OfLane(name: string, lane: string) {
    || (name == "PRIMARY" && lane == "p")
    || (name == "SHADOW" && lane == "s")
    || (name != "PRIMARY" && name != "SHADOW" && lane == name)
  }

  lemma {:induction false} LaneRootMeans(name: string, lane: string)
    ensures LaneRoot(name) == lane <==> OfLane(name, lane)
  {
    assert "PRIMARY"[0] != "SHADOW"[0];
  }

  function RangeOf(f: Frame): DepthRange {
    DepthRange(f.first, f.final, f.digest)
  }

  /** Some generation of the frame's lane has it as a trusted range. */
  ghost predicate Evidenced(gs: seq<Generation>, f: Frame) {
    f.lane.Some? && exists g :: 0 <= g < |gs| && OfLane(f.lane.value, gs[g].lane) && RangeOf(f) in gs[g].TrustedRanges()
  }

  ghost predicate LaneKnown(gs: seq<Generation>, name: string) {
    exists g :: 0 <= g < |gs| && OfLane(name, gs[g].lane)
  }

  /** No generation of the lane has a trusted range. */
  ghost predicate LaneSilent(gs: seq<Generation>, name: string) {
    forall g :: 0 <= g < |gs| && OfLane(name, gs[g].lane) ==> gs[g].TrustedRanges() == []
  }

  /** A tolerant check passes over a frame whose lane has no evidence yet. */
  ghost predicate PassedOver(gs: seq<Generation>, mode: Mode, f: Frame) {
    f.lane.Some? && mode.tolerant && LaneSilent(gs, f.lane.value)
  }

  /** The frame is trusted, or the check is tolerant and its lane silent or still unsealed. */
  ghost predicate FrameAccepted(gs: seq<Generation>, mode: Mode, f: Frame) {
    && f.lane.Some?
    && (|| PassedOver(gs, mode, f)
        || Evidenced(gs, f)
        || (mode.tolerant && LaneKnown(gs, f.lane.value) && exists lane :: lane in mode.unsealed && OfLane(f.lane.value, lane)))
  }

  /** The frame is of the lane of the rebootstrap and starts beyond its snapshot. */
  ghost predicate Agrees(r: Reboot, f: Frame) {
    && f.lane.Some? && r.boundary.Some? && r.boundary.value < f.first
    && exists lane :: OfLane(r.lane, lane) && OfLane(f.lane.value, lane)
  }

  lemma {:induction false} FollowsMeans(r: Reboot, f: Frame)
    ensures Follows(r, f) <==> Agrees(r, f)
  {
    hide LaneRoot, OfLane;
    LaneRootMeans(r.lane, LaneRoot(r.lane));
    if f.lane.Some? {
      LaneRootMeans(f.lane.value, LaneRoot(r.lane));
      LaneRootMeans(f.lane.value, LaneRoot(f.lane.value));
      forall lane | OfLane(r.lane, lane) && OfLane(f.lane.value, lane) ensures LaneRoot(r.lane) == LaneRoot(f.lane.value) {
        LaneRootMeans(r.lane, lane);
        LaneRootMeans(f.lane.value, lane);
      }
    }
  }

  /** What one frame does, told from the generations. */
  lemma {:induction false} FrameStepMeans(gs: seq<Generation>, reboots: seq<Reboot>, mode: Mode, next: nat, f: Frame, i: nat)
    ensures
      var step := FrameStep(OracleOf(gs), reboots, mode, next, f, i);
      var due := !PassedOver(gs, mode, f) && next < |reboots| && reboots[next].frameIndex == i;
      && (step.Some? <==> FrameAccepted(gs, mode, f) && (due ==> Agrees(reboots[next], f)))
      && (step.Some? ==> step.value == if due then next + 1 else next)
  {
    hide OracleOf, LaneRoot, OfLane, Follows, Agrees, Supplies;
    if f.lane.Some? {
      var name, lane := f.lane.value, LaneRoot(f.lane.value);
      LaneRootMeans(name, lane);
      LaneMeans(gs, name, lane);
      EvidenceMeans(gs, f);
      forall other | OfLane(name, other) ensures other == lane {
        LaneRootMeans(name, other);
      }
      if next < |reboots| {
        FollowsMeans(reboots[next], f);
      }
      if Evidenced(gs, f) {
        EvidencedIsNotSilent(gs, f);
      }
    }
  }

  lemma EvidencedIsNotSilent(gs: seq<Generation>, f: Frame)
    requires Evidenced(gs, f)
    ensures !LaneSilent(gs, f.lane.value) && LaneKnown(gs, f.lane.value)
  {
  }

  lemma LaneMeans(gs: seq<Generation>, name: string, lane: string)
    requires OfLane(name, lane) && LaneRoot(name) == lane
    ensures lane in OracleOf(gs) <==> LaneKnown(gs, name)
    ensures (lane !in OracleOf(gs) || OracleOf(gs)[lane] == map[]) <==> LaneSilent(gs, name)
  {
    hide OracleOf, Trusted, LaneRoot, OfLane;
    OracleLanes(gs, lane);
    forall g | 0 <= g < |gs| ensures OfLane(name, gs[g].lane) <==> gs[g].lane == lane {
      LaneRootMeans(name, gs[g].lane);
    }
    if lane in OracleOf(gs) {
      SilentLane(gs, lane);
    }
  }

  lemma EvidenceMeans(gs: seq<Generation>, f: Frame)
    ensures InOracle(OracleOf(gs), f) <==> Evidenced(gs, f)
  {
    hide OracleOf, Trusted, LaneRoot, OfLane;
    if f.lane.Some? {
      var name, lane := f.lane.value, LaneRoot(f.lane.value);
      OracleMembers(gs, lane, RangeOf(f));
      forall g | 0 <= g < |gs|
        ensures OfLane(name, gs[g].lane) && RangeOf(f) in gs[g].TrustedRanges() <==> Supplies(gs[g], lane, RangeOf(f))
      {
        LaneRootMeans(name, gs[g].lane);
      }
      if InOracle(OracleOf(gs), f) {
        var g :| 0 <= g < |gs| && Supplies(gs[g], lane, RangeOf(f));
        assert OfLane(name, gs[g].lane);
      }
      if Evidenced(gs, f) {
        var g :| 0 <= g < |gs| && OfLane(name, gs[g].lane) && RangeOf(f) in gs[g].TrustedRanges();
        assert Supplies(gs[g], lane, RangeOf(f));
      }
    }
  }

  // ----- which rebootstraps are checked -----

  /** The frames of a check: those it passes over, and the generations behind the others. */
  ghost predicate Waits(gs: seq<Generation>, mode: Mode, frames: seq<Frame>, i: nat) {
    i < |frames| && !PassedOver(gs, mode, frames[i])
  }

  /** The rebootstrap has a frame of its own: looked at, and no earlier rebootstrap waits for it. */
  ghost predicate HasOwnFrame(gs: seq<Generation>, mode: Mode, reboots: seq<Reboot>, frames: seq<Frame>, r: nat) {
    && r < |reboots| && Waits(gs, mode, frames, reboots[r].frameIndex)
    && (r > 0 ==> reboots[r - 1].frameIndex < reboots[r].frameIndex)
  }

  /** `m` is the length of the longest run of leading rebootstraps with frames of their own. */
  ghost predicate Reaches(gs: seq<Generation>, mode: Mode, reboots: seq<Reboot>, frames: seq<Frame>, m: nat) {
    && m <= |reboots|
    && (forall r :: 0 <= r < m ==> HasOwnFrame(gs, mode, reboots, frames, r))
    && !HasOwnFrame(gs, mode, reboots, frames, m)
  }

  /** The first frame after the rebootstrap agrees with it. */
  ghost predicate Checked(reboots: seq<Reboot>, frames: seq<Frame>, r: nat) {
    r < |reboots| && reboots[r].frameIndex < |frames| && Agrees(reboots[r], frames[reboots[r].frameIndex])
  }

  lemma ReachExists(gs: seq<Generation>, mode: Mode, reboots: seq<Reboot>, frames: seq<Frame>, from: nat) returns (m: nat)
    requires from <= |reboots| && forall r :: 0 <= r < from ==> HasOwnFrame(gs, mode, reboots, frames, r)
    ensures Reaches(gs, mode, reboots, frames, m)
    decreases |reboots| - from
  {
    if from < |reboots| && HasOwnFrame(gs, mode, reboots, frames, from) {
      m := ReachExists(gs, mode, reboots, frames, from + 1);
    } else {
      m := from;
    }
  }

  /** One more frame: the run of matched rebootstraps grows exactly when one waits for it. */
  lemma ReachNext(gs: seq<Generation>, mode: Mode, reboots: seq<Reboot>, frames: seq<Frame>, m: nat)
    requires InOrder(reboots) && frames != [] && Reaches(gs, mode, reboots, frames[..|frames| - 1], m)
    ensures
      var due := Waits(gs, mode, frames, |frames| - 1) && m < |reboots| && reboots[m].frameIndex == |frames| - 1;
      Reaches(gs, mode, reboots, frames, if due then m + 1 else m)
  {
    hide PassedOver;
    var front := frames[..|frames| - 1];
    forall r | 0 <= r < m ensures HasOwnFrame(gs, mode, reboots, frames, r) {
      assert HasOwnFrame(gs, mode, reboots, front, r);
    }
    if m > 0 {
      assert HasOwnFrame(gs, mode, reboots, front, m - 1);
    }
  }

  lemma ReachIsUnique(gs: seq<Generation>, mode: Mode, reboots: seq<Reboot>, frames: seq<Frame>, m: nat, k: nat)
    requires Reaches(gs, mode, reboots, frames, m) && Reaches(gs, mode, reboots, frames, k)
    ensures m == k
  {
    assert m < k ==> HasOwnFrame(gs, mode, reboots, frames, m);
    assert k < m ==> HasOwnFrame(gs, mode, reboots, frames, k);
  }

  /** Every frame is accepted and every rebootstrap of the reached run is followed rightly. */
  ghost predicate PassMeaning(gs: seq<Generation>, mode: Mode, reboots: seq<Reboot>, frames: seq<Frame>, m: nat) {
    && (forall i :: 0 <= i < |frames| ==> FrameAccepted(gs, mode, frames[i]))
    && (forall r :: 0 <= r < m ==> Checked(reboots, frames, r))
  }

  lemma {:induction false} PassMeans(gs: seq<Generation>, mode: Mode, reboots: seq<Reboot>, frames: seq<Frame>, m: nat)
    requires InOrder(reboots) && Reaches(gs, mode, reboots, frames, m)
    ensures
      var pass := FramePass(OracleOf(gs), reboots, mode, frames);
      && (pass.Some? <==> PassMeaning(gs, mode, reboots, frames, m))
      && (pass.Some? ==> pass.value == m)
  {
    hide FrameStep, OracleOf, FrameAccepted, PassedOver, Agrees;
    if frames == [] {
      assert m > 0 ==> HasOwnFrame(gs, mode, reboots, frames, 0);
    } else {
      var last := |frames| - 1;
      var front := frames[..last];
      var k := ReachExists(gs, mode, reboots, front, 0);
      PassMeans(gs, mode, reboots, front, k);
      ReachNext(gs, mode, reboots, frames, k);
      var due := Waits(gs, mode, frames, last) && k < |reboots| && reboots[k].frameIndex == last;
      ReachIsUnique(gs, mode, reboots, frames, m, if due then k + 1 else k);
      FrameStepMeans(gs, reboots, mode, k, frames[last], last);
      MeaningNext(gs, mode, reboots, frames, k, due);
    }
  }

  lemma MeaningNext(gs: seq<Generation>, mode: Mode, reboots: seq<Reboot>, frames: seq<Frame>, k: nat, due: bool)
    requires frames != [] && Reaches(gs, mode, reboots, frames[..|frames| - 1], k)
    requires due ==> k < |reboots| && reboots[k].frameIndex == |frames| - 1
    ensures
      var last := |frames| - 1;
      PassMeaning(gs, mode, reboots, frames, if due then k + 1 else k) <==>
        && PassMeaning(gs, mode, reboots, frames[..last], k)
        && FrameAccepted(gs, mode, frames[last]) && (due ==> Agrees(reboots[k], frames[last]))
  {
    hide FrameAccepted, Agrees, PassedOver;
    var last := |frames| - 1;
    var front, m := frames[..last], if due then k + 1 else k;
    forall r | 0 <= r < k ensures Checked(reboots, front, r) <==> Checked(reboots, frames, r) {
      assert HasOwnFrame(gs, mode, reboots, front, r);
    }
    assert due ==> (Checked(reboots, frames, k) <==> Agrees(reboots[k], frames[last]));
    if PassMeaning(gs, mode, reboots, frames, m) {
      assert FrameAccepted(gs, mode, frames[last]);
      assert due ==> Checked(reboots, frames, k);
      forall i | 0 <= i < last ensures FrameAccepted(gs, mode, front[i]) {
        assert FrameAccepted(gs, mode, frames[i]);
      }
      forall r | 0 <= r < k ensures Checked(reboots, front, r) {
        assert Checked(reboots, frames, r);
      }
    }
    if PassMeaning(gs, mode, reboots, front, k) && FrameAccepted(gs, mode, frames[last]) && (due ==> Agrees(reboots[k], frames[last])) {
      forall i | 0 <= i < |frames| ensures FrameAccepted(gs, mode, frames[i]) {
        assert i < last ==> FrameAccepted(gs, mode, front[i]);
      }
      forall r | 0 <= r < m ensures Checked(reboots, frames, r) {
        assert r < k ==> Checked(reboots, front, r);
      }
    }
  }

  // ----- the check of a journal -----

  /**
    What the depth check of a journal means, in every mode: each published frame is accepted by the
    raw generations of its lane, and each rebootstrap with a frame of its own is followed by a frame
    of its lane beyond its snapshot, up to the first rebootstrap that has none.
   */
  lemma {:induction false} DepthCheckMeans(gs: seq<Generation>, mode: Mode, ps: seq<Payload>, m: nat)
    requires Collect(ps).Some? && Reaches(gs, mode, Collect(ps).value.reboots, Collect(ps).value.depth, m)
    ensures
      var k := Collect(ps).value;
      var pass := FramePass(OracleOf(gs), k.reboots, mode, k.depth);
      && (pass.Some? <==> PassMeaning(gs, mode, k.reboots, k.depth, m))
      && (pass.Some? ==> pass.value == m)
  {
    hide FramePass, PassMeaning, Reaches, Collect;
    CollectedInOrder(ps);
    PassMeans(gs, mode, Collect(ps).value.reboots, Collect(ps).value.depth, m);
  }

  /**
    Every rebootstrap is checked when each has a frame of its own, which in a strict check holds
    exactly when no two rebootstraps stand without a frame between them and the last one has a frame
    after it.
   */
  lemma {:induction false} AllRebootsChecked(gs: seq<Generation>, mode: Mode, ps: seq<Payload>)
    requires Collect(ps).Some?
    requires
      var k := Collect(ps).value;
      && FramePass(OracleOf(gs), k.reboots, mode, k.depth).Some?
      && forall r :: 0 <= r < |k.reboots| ==> HasOwnFrame(gs, mode, k.reboots, k.depth, r)
    ensures
      var k := Collect(ps).value;
      forall r :: 0 <= r < |k.reboots| ==> Checked(k.reboots, k.depth, r)
  {
    hide FramePass, Checked, Collect, OracleOf, PassedOver, FrameAccepted;
    DepthCheckMeans(gs, mode, ps, |Collect(ps).value.reboots|);
  }

  /**
    A frame that passes the strict check is a trusted range of a generation of its own lane, and
    that generation's trusted ranges hold every update from its snapshot to the end of the frame.
   */
  lemma {:induction false} PublishedFrameIsTrusted(gs: seq<Generation>, ps: seq<Payload>, i: nat) returns (g: nat)
    requires Collect(ps).Some? && i < |Collect(ps).value.depth|
    requires
      var k := Collect(ps).value;
      FramePass(OracleOf(gs), k.reboots, STRICT, k.depth).Some?
    ensures
      var f := Collect(ps).value.depth[i];
      && f.lane.Some? && g < |gs| && OfLane(f.lane.value, gs[g].lane) && RangeOf(f) in gs[g].TrustedRanges()
      && forall u :: gs[g].snapshotLast < u <= f.final ==> Covers(gs[g].TrustedRanges(), u)
  {
    hide FramePass, Collect, Checked, Reaches, OracleOf, Trusted, Covers, TrustedEnd, OfLane;
    var k := Collect(ps).value;
    var f := k.depth[i];
    var m := ReachExists(gs, STRICT, k.reboots, k.depth, 0);
    DepthCheckMeans(gs, STRICT, ps, m);
    assert FrameAccepted(gs, STRICT, f);
    g :| 0 <= g < |gs| && OfLane(f.lane.value, gs[g].lane) && RangeOf(f) in gs[g].TrustedRanges();
    var expected := gs[g].snapshotLast + 1;
    TrustedBeforeEnd(expected, gs[g].ranges, RangeOf(f));
    forall u | gs[g].snapshotLast < u <= f.final ensures Covers(gs[g].TrustedRanges(), u) {
      TrustedHasNoHole(expected, gs[g].ranges, u);
    }
  }

  // ----- the final boundary -----

  /** No generation of the lane has a trusted range with the update. */
  ghost predicate NoneContinues(gs: seq<Generation>, name: string, u: int) {
    forall g :: 0 <= g < |gs| && OfLane(name, gs[g].lane) ==> !Covers(gs[g].TrustedRanges(), u)
  }

  /**
    What the final boundary means: no rebootstrap waits behind the last frame; a journal that ends
    in a gap is refused; one that ends in a frame leaves out nothing that the generations of its
    lane trust next; and one without depth stands against generations without any.
   */
  lemma {:induction false} FinalBoundaryMeans(gs: seq<Generation>, reboots: seq<Reboot>, frames: seq<Frame>, lastEvent: LastEvent, next: nat)
    ensures FinalBoundary(OracleOf(gs), reboots, frames, lastEvent, next) <==>
      && (next < |reboots| ==> reboots[next].frameIndex < |frames|)
      && lastEvent != LastGap
      && (lastEvent == LastFrame ==>
            && frames != [] && frames[|frames| - 1].lane.Some? && LaneKnown(gs, frames[|frames| - 1].lane.value)
            && NoneContinues(gs, frames[|frames| - 1].lane.value, frames[|frames| - 1].final + 1))
      && (lastEvent == NoDepth ==> NoneTrusted(gs))
  {
    hide OracleOf, Trusted, OfLane, LaneRoot;
    match lastEvent
    case LastGap =>
    case LastFrame =>
      if frames != [] && frames[|frames| - 1].lane.Some? {
        var last := frames[|frames| - 1];
        LaneRootMeans(last.lane.value, LaneRoot(last.lane.value));
        LaneMeans(gs, last.lane.value, LaneRoot(last.lane.value));
        if LaneKnown(gs, last.lane.value) {
          NoneContinuesMeans(gs, last.lane.value, LaneRoot(last.lane.value), last.final + 1);
        }
      }
    case NoDepth => NoDepthMeans(gs);
  }

  lemma NoneContinuesMeans(gs: seq<Generation>, name: string, lane: string, u: int)
    requires LaneRoot(name) == lane && lane in OracleOf(gs)
    ensures NoneContinues(gs, name, u) <==>
      forall final :: final in OracleOf(gs)[lane] && u <= final ==> forall v :: v in OracleOf(gs)[lane][final] ==> v.first > u
  {
    hide OracleOf, Trusted, OfLane, LaneRoot;
    var variants := OracleOf(gs)[lane];
    if NoneContinues(gs, name, u) {
      forall final, v: Variant | final in variants && u <= final && v in variants[final] ensures v.first > u {
        var r := DepthRange(v.first, final, v.digest);
        OracleMembers(gs, lane, r);
        var g :| 0 <= g < |gs| && Supplies(gs[g], lane, r);
        LaneRootMeans(name, gs[g].lane);
        var trusted := gs[g].TrustedRanges();
        var i :| 0 <= i < |trusted| && trusted[i] == r;
        assert !Covers(trusted, u);
      }
    } else {
      var g :| 0 <= g < |gs| && OfLane(name, gs[g].lane) && Covers(gs[g].TrustedRanges(), u);
      LaneRootMeans(name, gs[g].lane);
      var trusted := gs[g].TrustedRanges();
      var i :| 0 <= i < |trusted| && trusted[i].first <= u <= trusted[i].final;
      assert Supplies(gs[g], lane, trusted[i]);
      OracleMembers(gs, lane, trusted[i]);
    }
  }

  ghost predicate NoneTrusted(gs: seq<Generation>) {
    forall g :: 0 <= g < |gs| ==> gs[g].TrustedRanges() == []
  }

  lemma NoDepthMeans(gs: seq<Generation>)
    ensures NoRanges(OracleOf(gs)) <==> NoneTrusted(gs)
  {
    hide OracleOf, Trusted;
    if NoRanges(OracleOf(gs)) {
      forall g | 0 <= g < |gs| ensures gs[g].TrustedRanges() == [] {
        OracleLanes(gs, gs[g].lane);
        SilentLane(gs, gs[g].lane);
      }
    }
    if NoneTrusted(gs) {
      forall lane | lane in OracleOf(gs) ensures OracleOf(gs)[lane] == map[] {
        SilentLane(gs, lane);
      }
    }
  }

  // ----- a journal with an unchecked rebootstrap -----

  const OPENING := Opening("BTCUSDT")
  const AGAIN := DepthRebootstrap(true, Some(0), Some("p"))
  const LATER := DepthRebootstrap(true, Some(100), Some("s"))
  const FRAME_ONE := DepthObservation(Some(1), Some(1), Some("p"), Some(ONE_DIGEST), Some(LINEAGE))
  const FRAME_FIVE := DepthObservation(Some(5), Some(5), Some("p"), Some(FIVE_DIGEST), Some(LINEAGE))
  const CLOSING := Closing(0, 2, 2, 0)

  /** A gap, two rebootstraps in a row and a frame. */
  const HALF: seq<Payload> := [OPENING] + [Gap(Some(0))] + [AGAIN] + [AGAIN] + [FRAME_ONE]

  /** Then another gap, a rebootstrap of the other lane, and a frame that does not agree with it. */
  const TWICE: seq<Payload> := HALF + [Gap(Some(1))] + [LATER] + [FRAME_FIVE] + [CLOSING]

  /** Two generations of one lane, with a gap between them, and a silent one of the other lane. */
  const GENERATIONS: seq<Generation> := [
    Generation("p", 0, [DepthRange(1, 1, ONE_DIGEST)]),
    Generation("p", 4, [DepthRange(5, 5, FIVE_DIGEST)]),
    Generation("s", 0, [])]

  const TWICE_ORACLE: Oracle :=
    map["p" := map[1 := [Variant(1, ONE_DIGEST)], 5 := [Variant(5, FIVE_DIGEST)]], "s" := map[]]

  lemma TwiceOracle()
    ensures OracleOf(GENERATIONS) == TWICE_ORACLE
  {
    assert GENERATIONS[..2][..1][..0] == [];
    var one, five := DepthRange(1, 1, ONE_DIGEST), DepthRange(5, 5, FIVE_DIGEST);
    OneTrusted(map[], 0, one);
    OneTrusted(map[1 := [Variant(1, ONE_DIGEST)]], 4, five);
    assert [] + [Variant(1, ONE_DIGEST)] == [Variant(1, ONE_DIGEST)];
    var first: LaneMap := map[1 := [Variant(1, ONE_DIGEST)]];
    assert OracleOf(GENERATIONS[..2][..1]) == map["p" := first];
    assert AddRange(first, five) == TWICE_ORACLE["p"] by {
      assert [] + [Variant(5, FIVE_DIGEST)] == [Variant(5, FIVE_DIGEST)];
    }
    assert GENERATIONS[..2][1] == GENERATIONS[1] && GENERATIONS[1].TrustedRanges() == Trusted(5, [five]);
    assert OracleOf(GENERATIONS[..2]) == map["p" := TWICE_ORACLE["p"]];
  }

  /** A generation of one range that starts right after its snapshot adds that range. */
  lemma OneTrusted(lane: LaneMap, snapshotLast: int, r: DepthRange)
    requires r.first == snapshotLast + 1 <= r.final
    ensures AddRanges(lane, Trusted(snapshotLast + 1, [r])) == AddRange(lane, r)
  {
    assert [r][1..] == [] && [r][..0] == [];
    assert Trusted(snapshotLast + 1, [r]) == [r];
  }
  const TWICE_FRAMES := [Frame(1, 1, ONE_DIGEST, Some("p")), Frame(5, 5, FIVE_DIGEST, Some("p"))]
  const TWICE_REBOOTS := [Reboot(Some(0), 0, "p"), Reboot(Some(0), 0, "p"), Reboot(Some(100), 1, "s")]

  function TwiceSet(digest: Body -> Digest): seq<Segment> {
    [Segment(Write(digest, TWICE), 0)]
  }

  lemma HalfCollected()
    ensures Collect(HALF) ==
            Some(Canonical([], [], None, true, TWICE_FRAMES[..1], TWICE_REBOOTS[..2], LastFrame, None, None, []))
  {
    hide Collect;
    CollectNothing();
    CollectNext([], OPENING);
    assert [] + [OPENING] == [OPENING];
    CollectNext([OPENING], Gap(Some(0)));
    CollectNext([OPENING] + [Gap(Some(0))], AGAIN);
    CollectNext([OPENING] + [Gap(Some(0))] + [AGAIN], AGAIN);
    CollectNext([OPENING] + [Gap(Some(0))] + [AGAIN] + [AGAIN], FRAME_ONE);
    assert NOTHING.artifacts + OPENING.artifacts == [];
    assert [] + [TWICE_FRAMES[0]] == TWICE_FRAMES[..1];
    assert [] + [TWICE_REBOOTS[0]] + [TWICE_REBOOTS[1]] == TWICE_REBOOTS[..2];
  }

  lemma TwiceCollected()
    ensures Collect(TWICE) == Some(Canonical([], [], None, true, TWICE_FRAMES, TWICE_REBOOTS, LastFrame, None, None, []))
  {
    hide Collect, HALF;
    HalfCollected();
    CollectNext(HALF, Gap(Some(1)));
    CollectNext(HALF + [Gap(Some(1))], LATER);
    CollectNext(HALF + [Gap(Some(1))] + [LATER], FRAME_FIVE);
    CollectNext(HALF + [Gap(Some(1))] + [LATER] + [FRAME_FIVE], CLOSING);
    assert TWICE_FRAMES[..1] + [TWICE_FRAMES[1]] == TWICE_FRAMES;
    assert TWICE_REBOOTS[..2] + [TWICE_REBOOTS[2]] == TWICE_REBOOTS;
  }

  const HALF_CORE := FRESH_CORE.(
    records := 5, started := true, gaps := 1, rebootstraps := 2, statusRecords := 2,
    lastDepth := Some(1), exactNext := Some(2), depthFrames := 1, observations := 1)

  /** The audit state inside the only segment of the set. */
  function Inside(core: Core, sha: Digest): Audit {
    FRESH_AUDIT.(core := core, symbol := Some("BTCUSDT"), lastRecordSha := sha)
  }

  const OPENED_CORE := FRESH_CORE.(records := 1, started := true)
  const GAP_CORE := OPENED_CORE.(records := 2, gaps := 1)

  const AGAIN_CORE := GAP_CORE.(records := 3, rebootstraps := 1, statusRecords := 1)
  const TWICE_CORE := GAP_CORE.(records := 4, rebootstraps := 2, statusRecords := 2)

  lemma OpeningCores()
    ensures CoreStep(FRESH_CORE, OPENING) == Some(OPENED_CORE) && CoreStep(OPENED_CORE, Gap(Some(0))) == Some(GAP_CORE)
  {
  }

  lemma RebootCores()
    ensures CoreStep(GAP_CORE, AGAIN) == Some(AGAIN_CORE) && CoreStep(AGAIN_CORE, AGAIN) == Some(TWICE_CORE)
  {
  }

  lemma FrameCore()
    ensures CoreStep(TWICE_CORE, FRAME_ONE) == Some(HALF_CORE)
  {
  }

  lemma HalfRuns(digest: Body -> Digest)
    ensures RunFile(digest, FRESH_AUDIT, Write(digest, HALF)) ==
            Some(Inside(HALF_CORE, LastSha(Write(digest, HALF))))
  {
    hide RunFile, Write, CoreStep;
    OpeningCores();
    RebootCores();
    FrameCore();
    EmptyFile(digest, FRESH_AUDIT);
    WrittenStep(digest, FRESH_AUDIT, [], OPENING);
    assert [] + [OPENING] == [OPENING];
    WrittenStep(digest, FRESH_AUDIT, [OPENING], Gap(Some(0)));
    WrittenStep(digest, FRESH_AUDIT, [OPENING] + [Gap(Some(0))], AGAIN);
    WrittenStep(digest, FRESH_AUDIT, [OPENING] + [Gap(Some(0))] + [AGAIN], AGAIN);
    WrittenStep(digest, FRESH_AUDIT, [OPENING] + [Gap(Some(0))] + [AGAIN] + [AGAIN], FRAME_ONE);
  }

  lemma TwiceAccepted(digest: Body -> Digest)
    ensures Accepted(digest, TwiceSet(digest), false) && Flatten(TwiceSet(digest)) == TWICE
  {
    hide RunFile, Write, HALF;
    HalfRuns(digest);
    WrittenStep(digest, FRESH_AUDIT, HALF, Gap(Some(1)));
    WrittenStep(digest, FRESH_AUDIT, HALF + [Gap(Some(1))], LATER);
    WrittenStep(digest, FRESH_AUDIT, HALF + [Gap(Some(1))] + [LATER], FRAME_FIVE);
    WrittenStep(digest, FRESH_AUDIT, HALF + [Gap(Some(1))] + [LATER] + [FRAME_FIVE], CLOSING);
    WriteSize(digest, TWICE);
    assert TwiceSet(digest)[..0] == [];
    assert RunFile(digest, FRESH_AUDIT, Write(digest, TWICE)).Some?;
    OneSegment(digest, TwiceSet(digest)[0]);
  }

  lemma TwicePasses()
    ensures FramePass(TWICE_ORACLE, TWICE_REBOOTS, STRICT, TWICE_FRAMES) == Some(1)
    ensures FinalBoundary(TWICE_ORACLE, TWICE_REBOOTS, TWICE_FRAMES, LastFrame, 1)
  {
    assert TWICE_FRAMES[..1] == [TWICE_FRAMES[0]] && TWICE_FRAMES[..1][..0] == [];
    var lane := TWICE_ORACLE["p"];
    assert lane[1][0] == Variant(1, ONE_DIGEST) && lane[5][0] == Variant(5, FIVE_DIGEST);
    assert FramePass(TWICE_ORACLE, TWICE_REBOOTS, STRICT, [TWICE_FRAMES[0]]) == Some(1);
  }

  /**
    Two rebootstraps in a row stop the matching.  In this set, which passes the closed audit, the
    third rebootstrap is of another lane and beyond the frame that follows it, and the strict
    check against raw generations of both lanes, with its final boundary, still passes.
   */
  lemma {:induction false} RepeatedRebootHidesLaterOnes(digest: Body -> Digest)
    ensures Accepted(digest, TwiceSet(digest), false)
    ensures Collect(Flatten(TwiceSet(digest))).Some?
    ensures
      var k := Collect(Flatten(TwiceSet(digest))).value;
      var oracle := OracleOf(GENERATIONS);
      var pass := FramePass(oracle, k.reboots, STRICT, k.depth);
      && "p" in oracle && "s" in oracle
      && pass.Some? && FinalBoundary(oracle, k.reboots, k.depth, k.lastDepth, pass.value)
      && |k.reboots| == 3 && k.reboots[2].frameIndex < |k.depth| && !Checked(k.reboots, k.depth, 2)
  {
    hide Collect, Accepted, Flatten, FramePass, FinalBoundary, OracleOf;
    TwiceOracle();
    TwiceAccepted(digest);
    TwiceCollected();
    TwicePasses();
  }

  // ----- a journal of both lanes that passes -----

  const PRIMARY_ONE := DepthObservation(Some(1), Some(1), Some("PRIMARY"), Some(ONE_DIGEST), Some(LINEAGE))
  const SHADOW_TWO := DepthObservation(Some(2), Some(3), Some("SHADOW"), Some(THREE_DIGEST), Some(LINEAGE))
  const PRIMARY_REBOOT := DepthRebootstrap(true, Some(4), Some("PRIMARY"))
  const PRIMARY_FIVE := DepthObservation(Some(5), Some(6), Some("PRIMARY"), Some(FIVE_DIGEST), Some(LINEAGE))
  const BOTH_CLOSING := Closing(0, 3, 1, 0)

  /** A frame of each lane, a gap, a rebootstrap of the first lane and its next frame. */
  const BOTH_LANES: seq<Payload> :=
    [OPENING] + [PRIMARY_ONE] + [SHADOW_TWO] + [Gap(Some(3))] + [PRIMARY_REBOOT] + [PRIMARY_FIVE] + [BOTH_CLOSING]

  const BOTH_GENERATIONS: seq<Generation> := [
    Generation("p", 0, [DepthRange(1, 1, ONE_DIGEST)]),
    Generation("s", 1, [DepthRange(2, 3, THREE_DIGEST)]),
    Generation("p", 4, [DepthRange(5, 6, FIVE_DIGEST)])]

  const BOTH_FRAMES := [
    Frame(1, 1, ONE_DIGEST, Some("PRIMARY")), Frame(2, 3, THREE_DIGEST, Some("SHADOW")),
    Frame(5, 6, FIVE_DIGEST, Some("PRIMARY"))]

  const BOTH_REBOOTS := [Reboot(Some(4), 2, "PRIMARY")]

  function BothSet(digest: Body -> Digest): seq<Segment> {
    [Segment(Write(digest, BOTH_LANES), 0)]
  }

  lemma BothCollected()
    ensures Collect(BOTH_LANES) ==
            Some(Canonical([], [], None, true, BOTH_FRAMES, BOTH_REBOOTS, LastFrame, None, None, []))
  {
    hide Collect;
    BothOpened();
    var two := [OPENING, PRIMARY_ONE, SHADOW_TWO];
    CollectNext(two, Gap(Some(3)));
    CollectNext(two + [Gap(Some(3))], PRIMARY_REBOOT);
    CollectNext(two + [Gap(Some(3))] + [PRIMARY_REBOOT], PRIMARY_FIVE);
    CollectNext(two + [Gap(Some(3))] + [PRIMARY_REBOOT] + [PRIMARY_FIVE], BOTH_CLOSING);
    assert two + [Gap(Some(3))] + [PRIMARY_REBOOT] + [PRIMARY_FIVE] + [BOTH_CLOSING] == BOTH_LANES;
    assert BOTH_FRAMES[..2] + [BOTH_FRAMES[2]] == BOTH_FRAMES;
    assert [] + [BOTH_REBOOTS[0]] == BOTH_REBOOTS;
  }

  lemma BothOpened()
    ensures Collect([OPENING, PRIMARY_ONE, SHADOW_TWO]) ==
            Some(Canonical([], [], None, true, BOTH_FRAMES[..2], [], LastFrame, None, None, []))
  {
    hide Collect;
    CollectNothing();
    CollectNext([], OPENING);
    assert [] + [OPENING] == [OPENING];
    CollectNext([OPENING], PRIMARY_ONE);
    CollectNext([OPENING] + [PRIMARY_ONE], SHADOW_TWO);
    assert [OPENING] + [PRIMARY_ONE] + [SHADOW_TWO] == [OPENING, PRIMARY_ONE, SHADOW_TWO];
    assert NOTHING.artifacts + OPENING.artifacts == [];
    assert [] + [BOTH_FRAMES[0]] + [BOTH_FRAMES[1]] == BOTH_FRAMES[..2];
  }

  const FIRST_LANE_CORE := OPENED_CORE.(
    records := 2, lastDepth := Some(1), exactNext := Some(2), depthFrames := 1, observations := 1)
  const SECOND_LANE_CORE := FIRST_LANE_CORE.(
    records := 3, lastDepth := Some(3), exactNext := Some(4), depthFrames := 2, observations := 2)
  const BOTH_GAP_CORE := SECOND_LANE_CORE.(records := 4, exactNext := None, gaps := 1)
  const BOTH_REBOOT_CORE := BOTH_GAP_CORE.(records := 5, rebootstraps := 1, statusRecords := 1)
  const BOTH_LAST_CORE := BOTH_REBOOT_CORE.(
    records := 6, lastDepth := Some(6), exactNext := Some(7), depthFrames := 3, observations := 3)

  lemma BothFrameCores()
    ensures CoreStep(OPENED_CORE, PRIMARY_ONE) == Some(FIRST_LANE_CORE)
    ensures CoreStep(FIRST_LANE_CORE, SHADOW_TWO) == Some(SECOND_LANE_CORE)
  {
  }

  lemma BothGapCores()
    ensures CoreStep(SECOND_LANE_CORE, Gap(Some(3))) == Some(BOTH_GAP_CORE)
    ensures CoreStep(BOTH_GAP_CORE, PRIMARY_REBOOT) == Some(BOTH_REBOOT_CORE)
  {
  }

  lemma BothLastCores()
    ensures CoreStep(BOTH_REBOOT_CORE, PRIMARY_FIVE) == Some(BOTH_LAST_CORE)
    ensures CoreStep(BOTH_LAST_CORE, BOTH_CLOSING) == Some(BOTH_LAST_CORE.(records := 7))
  {
  }

  lemma BothAccepted(digest: Body -> Digest)
    ensures Accepted(digest, BothSet(digest), false) && Flatten(BothSet(digest)) == BOTH_LANES
  {
    hide RunFile, Write, CoreStep;
    OpeningCores();
    BothFrameCores();
    BothGapCores();
    BothLastCores();
    EmptyFile(digest, FRESH_AUDIT);
    WrittenStep(digest, FRESH_AUDIT, [], OPENING);
    assert [] + [OPENING] == [OPENING];
    WrittenStep(digest, FRESH_AUDIT, [OPENING], PRIMARY_ONE);
    WrittenStep(digest, FRESH_AUDIT, [OPENING] + [PRIMARY_ONE], SHADOW_TWO);
    var two := [OPENING] + [PRIMARY_ONE] + [SHADOW_TWO];
    WrittenStep(digest, FRESH_AUDIT, two, Gap(Some(3)));
    WrittenStep(digest, FRESH_AUDIT, two + [Gap(Some(3))], PRIMARY_REBOOT);
    WrittenStep(digest, FRESH_AUDIT, two + [Gap(Some(3))] + [PRIMARY_REBOOT], PRIMARY_FIVE);
    WrittenStep(digest, FRESH_AUDIT, two + [Gap(Some(3))] + [PRIMARY_REBOOT] + [PRIMARY_FIVE], BOTH_CLOSING);
    WriteSize(digest, BOTH_LANES);
    assert RunFile(digest, FRESH_AUDIT, Write(digest, BOTH_LANES)).Some?;
    OneSegment(digest, BothSet(digest)[0]);
  }

  lemma BothTrusted()
    ensures BOTH_GENERATIONS[0].TrustedRanges() == [DepthRange(1, 1, ONE_DIGEST)]
    ensures BOTH_GENERATIONS[1].TrustedRanges() == [DepthRange(2, 3, THREE_DIGEST)]
    ensures BOTH_GENERATIONS[2].TrustedRanges() == [DepthRange(5, 6, FIVE_DIGEST)]
  {
    OnlyTrusted(0, DepthRange(1, 1, ONE_DIGEST));
    OnlyTrusted(1, DepthRange(2, 3, THREE_DIGEST));
    OnlyTrusted(4, DepthRange(5, 6, FIVE_DIGEST));
  }

  lemma OnlyTrusted(snapshotLast: int, r: DepthRange)
    requires r.first == snapshotLast + 1 <= r.final
    ensures Trusted(snapshotLast + 1, [r]) == [r]
  {
    assert [r][1..] == [];
  }

  lemma BothFramesAccepted()
    ensures PassMeaning(BOTH_GENERATIONS, STRICT, BOTH_REBOOTS, BOTH_FRAMES, 1)
    ensures Reaches(BOTH_GENERATIONS, STRICT, BOTH_REBOOTS, BOTH_FRAMES, 1)
  {
    hide Trusted;
    BothTrusted();
    forall i | 0 <= i < |BOTH_FRAMES| ensures FrameAccepted(BOTH_GENERATIONS, STRICT, BOTH_FRAMES[i]) {
      var gs, f := BOTH_GENERATIONS, BOTH_FRAMES[i];
      assert OfLane(f.lane.value, gs[i].lane) && RangeOf(f) == gs[i].ranges[0];
      assert RangeOf(f) in gs[i].TrustedRanges();
    }
    assert OfLane("PRIMARY", "p");
    assert Checked(BOTH_REBOOTS, BOTH_FRAMES, 0);
    assert HasOwnFrame(BOTH_GENERATIONS, STRICT, BOTH_REBOOTS, BOTH_FRAMES, 0);
  }

  lemma BothFinal()
    ensures FinalBoundary(OracleOf(BOTH_GENERATIONS), BOTH_REBOOTS, BOTH_FRAMES, LastFrame, 1)
  {
    hide Trusted, FinalBoundary, OracleOf;
    BothTrusted();
    FinalBoundaryMeans(BOTH_GENERATIONS, BOTH_REBOOTS, BOTH_FRAMES, LastFrame, 1);
    assert OfLane("PRIMARY", BOTH_GENERATIONS[0].lane);
    assert LaneKnown(BOTH_GENERATIONS, "PRIMARY");
  }

  /** The strict check is not only refusals: this set of both lanes passes the audit and the check. */
  lemma {:induction false} BothLanesPass(digest: Body -> Digest)
    ensures Accepted(digest, BothSet(digest), false)
    ensures Collect(Flatten(BothSet(digest))).Some?
    ensures
      var k := Collect(Flatten(BothSet(digest))).value;
      var pass := FramePass(OracleOf(BOTH_GENERATIONS), k.reboots, STRICT, k.depth);
      && pass.Some? && FinalBoundary(OracleOf(BOTH_GENERATIONS), k.reboots, k.depth, k.lastDepth, pass.value)
      && |k.depth| == 3 && |k.reboots| == 1 && Checked(k.reboots, k.depth, 0)
  {
    hide Collect, Accepted, Flatten, FramePass, FinalBoundary, OracleOf, Reaches, Trusted;
    BothAccepted(digest);
    BothCollected();
    BothFramesAccepted();
    BothFinal();
    DepthCheckMeans(BOTH_GENERATIONS, STRICT, BOTH_LANES, 1);
  }
}
