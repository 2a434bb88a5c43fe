/**
  What an accepted journal set says as one list of payloads: the segments run as one journal, and
  its depth ranges have no silent hole.
 */
module ArbitrationRuns {
  import opened Wrappers
  import opened ArbitrationAudit

  function Payloads(es: seq<Envelope>): (ps: seq<Payload>)
    ensures |ps| == |es|
  {
    if es == [] then [] else Payloads(es[..|es| - 1]) + [es[|es| - 1].body.payload]
  }

  /** The payloads of all segments, in order. */
  function Flatten(segments: seq<Segment>): seq<Payload> {
    if segments == [] then []
    else Flatten(segments[..|segments| - 1]) + Payloads(segments[|segments| - 1].envelopes)
  }

  /** One journal without files: only its first record may be STARTED. */
  function CoreRun(ps: seq<Payload>): Option<Core> {
    if ps == [] then Some(FRESH_CORE)
    else
      var last := |ps| - 1;
      var before := CoreRun(ps[..last]);
      if before.None? || (ps[last].Started? && last > 0) then None else CoreStep(before.value, ps[last])
  }

  /** What an accepted record does beside the chain checks. */
  lemma StepIsCoreStep(digest: Body -> Digest, st: Audit, e: Envelope, fileIndex: nat, previous: Digest)
    requires Step(digest, st, e, fileIndex, previous).Some?
    ensures
      var next := Step(digest, st, e, fileIndex, previous).value;
      && CoreStep(st.core, e.body.payload) == Some(next.core) && next.segments == st.segments
      && (e.body.payload.Started? ==> fileIndex == 0 && st.segments == 0)
  {
    hide CoreStep;
  }

  lemma {:induction false} FileIsOneRun(digest: Body -> Digest, st: Audit, ps: seq<Payload>, es: seq<Envelope>)
    requires CoreRun(ps) == Some(st.core) && (st.segments == 0 ==> ps == [])
    requires RunFile(digest, st, es).Some?
    ensures CoreRun(ps + Payloads(es)) == Some(RunFile(digest, st, es).value.core)
    ensures RunFile(digest, st, es).value.segments == st.segments
  {
    hide CoreStep, Step;
    if es == [] {
      assert ps + Payloads(es) == ps;
    } else {
      var last := |es| - 1;
      FileIsOneRun(digest, st, ps, es[..last]);
      var all := ps + Payloads(es);
      assert all[..|all| - 1] == ps + Payloads(es[..last]);
      StepIsCoreStep(digest, RunFile(digest, st, es[..last]).value, es[last], last, LastSha(es[..last]));
    }
  }

  /** An accepted set runs as one journal, whatever the segment boundaries are. */
  lemma {:induction false} SetIsOneRun(digest: Body -> Digest, segments: seq<Segment>)
    requires RunSet(digest, segments).Some?
    ensures CoreRun(Flatten(segments)) == Some(RunSet(digest, segments).value.core)
    ensures RunSet(digest, segments).value.segments == |segments|
  {
    hide CoreRun, RunFile;
    if segments == [] {
      FreshRun();
    } else {
      var last := |segments| - 1;
      SetIsOneRun(digest, segments[..last]);
      var st := RunSet(digest, segments[..last]).value;
      FileIsOneRun(digest, st, Flatten(segments[..last]), segments[last].envelopes);
    }
  }

  lemma FreshRun()
    ensures CoreRun([]) == Some(FRESH_CORE)
  {
  }

  lemma {:induction false} PrefixRuns(ps: seq<Payload>, i: nat)
    requires i <= |ps| && CoreRun(ps).Some?
    ensures CoreRun(ps[..i]).Some?
  {
    hide CoreStep;
    if i < |ps| {
      PrefixRuns(ps[..|ps| - 1], i);
      assert ps[..|ps| - 1][..i] == ps[..i];
    } else {
      assert ps[..i] == ps;
    }
  }

  // ----- depth -----

  /** The position of the last depth observation, or -1. */
  function LastDepth(ps: seq<Payload>): (i: int)
    ensures -1 <= i < |ps|
    ensures i >= 0 ==> ps[i].DepthObservation?
    ensures forall k :: i < k < |ps| ==> !ps[k].DepthObservation?
  {
    if ps == [] then -1
    else if ps[|ps| - 1].DepthObservation? then |ps| - 1
    else LastDepth(ps[..|ps| - 1])
  }

  ghost predicate Declares(p: Payload, boundary: Option<int>) {
    p.Gap? && p.last == boundary
  }

  /** A GAP record between the two positions declares exactly the boundary. */
  ghost predicate GapBetween(ps: seq<Payload>, i: int, j: int, boundary: Option<int>) {
    exists k :: 0 <= i < k < j <= |ps| && Declares(ps[k], boundary)
  }

  /** A depth range is proper and does not pass the cursor. */
  ghost predicate RangeWithin(p: Payload, cursor: Option<int>) {
    p.DepthObservation? ==>
      p.first.Some? && p.final.Some? && cursor.Some? && 0 < p.first.value <= p.final.value <= cursor.value
  }

  /** The cursor and the contiguity mark agree with the depth records of the journal. */
  ghost predicate DepthFacts(c: Core, ps: seq<Payload>) {
    var i := LastDepth(ps);
    && (i < 0 ==> c.lastDepth.None? && c.exactNext.None?)
    && (i >= 0 ==>
          && c.lastDepth.Some? && c.lastDepth == ps[i].final
          && (c.exactNext.Some? ==> c.exactNext.value == c.lastDepth.value + 1)
          && (c.exactNext.None? ==> GapBetween(ps, i, |ps|, c.lastDepth)))
    && (forall k :: 0 <= k < |ps| ==> RangeWithin(ps[k], c.lastDepth))
    && (forall k :: i < k < |ps| && ps[k].Gap? ==> ps[k].last == Some(OrZero(c.lastDepth)))
  }

  lemma OtherRecordsKeepDepth(c: Core, p: Payload)
    requires CoreStep(c, p).Some? && !p.DepthObservation? && !p.Gap?
    ensures CoreStep(c, p).value.lastDepth == c.lastDepth && CoreStep(c, p).value.exactNext == c.exactNext
  {
  }

  lemma DepthFactsStep(c: Core, ps: seq<Payload>, p: Payload)
    requires DepthFacts(c, ps) && CoreStep(c, p).Some?
    ensures DepthFacts(CoreStep(c, p).value, ps + [p])
  {
    hide TradeStep, CorrectionStep, CoreStep;
    var next := CoreStep(c, p).value;
    var i := LastDepth(ps);
    assert (ps + [p])[..|ps|] == ps;
    forall k | 0 <= k < |ps| ensures RangeWithin(ps[k], next.lastDepth) {
      assert RangeWithin(ps[k], c.lastDepth);
      CursorGrows(c, p);
    }
    CursorGrows(c, p);
    if p.Gap? {
      assert Declares((ps + [p])[|ps|], p.last);
    } else if !p.DepthObservation? {
      OtherRecordsKeepDepth(c, p);
      if i >= 0 && c.exactNext.None? {
        var k :| 0 <= i < k < |ps| && Declares(ps[k], c.lastDepth);
        assert Declares((ps + [p])[k], c.lastDepth);
      }
    }
  }

  lemma CursorGrows(c: Core, p: Payload)
    requires CoreStep(c, p).Some?
    requires c.exactNext.Some? ==> c.lastDepth.Some? && c.exactNext.value == c.lastDepth.value + 1
    ensures
      var next := CoreStep(c, p).value;
      && (c.lastDepth.Some? ==> next.lastDepth.Some? && c.lastDepth.value <= next.lastDepth.value)
      && (p.DepthObservation? ==>
            && p.first.Some? && p.final.Some? && 0 < p.first.value <= p.final.value && next.lastDepth == p.final
            && next.exactNext == Some(p.final.value + 1)
            && (c.lastDepth.Some? ==> c.lastDepth.value < p.first.value)
            && (c.exactNext.Some? ==> p.first == c.exactNext))
      && (p.Gap? ==> p.last == Some(OrZero(c.lastDepth)) && next.lastDepth == c.lastDepth && next.exactNext.None?)
  {
    hide TradeStep, CorrectionStep;
    if !p.DepthObservation? && !p.Gap? {
      OtherRecordsKeepDepth(c, p);
    }
  }

  lemma {:induction false} RunKeepsDepthFacts(ps: seq<Payload>)
    requires CoreRun(ps).Some?
    ensures DepthFacts(CoreRun(ps).value, ps)
  {
    hide CoreStep;
    if ps != [] {
      var last := |ps| - 1;
      RunKeepsDepthFacts(ps[..last]);
      DepthFactsStep(CoreRun(ps[..last]).value, ps[..last], ps[last]);
      assert ps[..last] + [ps[last]] == ps;
    }
  }

  /** A depth range lies after all earlier ones. */
  lemma RangesIncrease(ps: seq<Payload>, i: nat, j: nat)
    requires CoreRun(ps).Some? && i < j < |ps| && ps[i].DepthObservation? && ps[j].DepthObservation?
    ensures ps[i].first.Some? && ps[i].final.Some? && ps[j].first.Some? && ps[j].final.Some?
    ensures 0 < ps[i].first.value <= ps[i].final.value < ps[j].first.value <= ps[j].final.value
  {
    hide CoreStep, LastDepth;
    var front := ps[..j];
    assert front[i].DepthObservation?;
    PrefixRuns(ps, j + 1);
    assert ps[..j + 1][..j] == front;
    RunKeepsDepthFacts(front);
    FactsAt(CoreRun(front).value, front, i);
    CursorGrows(CoreRun(front).value, ps[j]);
  }

  lemma FactsAt(c: Core, ps: seq<Payload>, i: nat)
    requires DepthFacts(c, ps) && i < |ps|
    ensures RangeWithin(ps[i], c.lastDepth)
    ensures c.exactNext.Some? ==> c.lastDepth.Some? && c.exactNext.value == c.lastDepth.value + 1
  {
  }

  /**
    Where a depth range does not start right after the previous one, a GAP record between them
    declares exactly the earlier final sequence.
   */
  lemma {:induction false} NoHoleBefore(ps: seq<Payload>, i: nat, j: nat)
    requires CoreRun(ps).Some? && i < j < |ps| && ps[j].DepthObservation? && i == LastDepth(ps[..j])
    ensures ps[i].DepthObservation? && ps[i].final.Some? && ps[j].first.Some?
    ensures ps[j].first.value == ps[i].final.value + 1 || GapBetween(ps, i, j, ps[i].final)
    ensures forall k :: i < k < j && ps[k].Gap? ==> ps[k].last == ps[i].final
  {
    hide CoreStep, LastDepth, RangeWithin;
    var front := ps[..j];
    assert front[i] == ps[i];
    PrefixRuns(ps, j + 1);
    assert ps[..j + 1][..j] == front;
    RunKeepsDepthFacts(front);
    var c := CoreRun(front).value;
    CursorGrows(c, ps[j]);
    if c.exactNext.None? {
      var k :| 0 <= i < k < |front| && Declares(front[k], c.lastDepth);
      assert Declares(ps[k], ps[i].final);
    }
    forall k | i < k < j && ps[k].Gap? ensures ps[k].last == ps[i].final {
      assert front[k].Gap?;
    }
  }

  /** Two neighbouring depth records: none lies between them. */
  ghost predicate DepthNeighbours(ps: seq<Payload>, i: int, j: int) {
    && 0 <= i < j < |ps| && ps[i].DepthObservation? && ps[j].DepthObservation?
    && forall k :: i < k < j ==> !ps[k].DepthObservation?
  }

  /**
    No silent depth hole: over every accepted journal set, across all its segments, depth ranges
    are disjoint and increasing, and neighbours that are not contiguous have a GAP between them.
   */
  lemma {:induction false} NoSilentDepthHole(digest: Body -> Digest, segments: seq<Segment>, incremental: bool, i: nat, j: nat)
    requires Accepted(digest, segments, incremental)
    requires
      var ps := Flatten(segments);
      i < j < |ps| && ps[i].DepthObservation? && ps[j].DepthObservation?
    ensures
      var ps := Flatten(segments);
      && ps[i].first.Some? && ps[i].final.Some? && ps[j].first.Some? && ps[j].final.Some?
      && ps[i].first.value <= ps[i].final.value < ps[j].first.value <= ps[j].final.value
      && (DepthNeighbours(ps, i, j) ==>
            && (ps[j].first.value == ps[i].final.value + 1 || GapBetween(ps, i, j, ps[i].final))
            && forall k :: i < k < j && ps[k].Gap? ==> ps[k].last == ps[i].final)
  {
    hide RunSet, CoreRun;
    var ps := Flatten(segments);
    SetIsOneRun(digest, segments);
    RangesIncrease(ps, i, j);
    if DepthNeighbours(ps, i, j) {
      assert ps[..j][i].DepthObservation?;
      assert LastDepth(ps[..j]) == i;
      NoHoleBefore(ps, i, j);
    }
  }

  // ----- counters -----

  function CountTrades(ps: seq<Payload>): nat {
    if ps == [] then 0
    else CountTrades(ps[..|ps| - 1]) + (if ps[|ps| - 1].TradeObservation? then 1 else 0)
  }

  function CountDepth(ps: seq<Payload>): nat {
    if ps == [] then 0
    else CountDepth(ps[..|ps| - 1]) + (if ps[|ps| - 1].DepthObservation? then 1 else 0)
  }

  function CountGaps(ps: seq<Payload>): nat {
    if ps == [] then 0
    else CountGaps(ps[..|ps| - 1]) + (if ps[|ps| - 1].Gap? then 1 else 0)
  }

  function CountCorrections(ps: seq<Payload>): nat {
    if ps == [] then 0
    else CountCorrections(ps[..|ps| - 1]) + (if ps[|ps| - 1].TradeCorrection? then 1 else 0)
  }

  function Tally(ps: seq<Payload>): Counters {
    Counters(CountTrades(ps), CountDepth(ps), CountGaps(ps), CountCorrections(ps))
  }

  lemma StepCounts(c: Core, p: Payload)
    requires CoreStep(c, p).Some?
    ensures
      var next := CoreStep(c, p).value;
      && next.trades == c.trades + (if p.TradeObservation? then 1 else 0)
      && next.depthFrames == c.depthFrames + (if p.DepthObservation? then 1 else 0)
      && next.gaps == c.gaps + (if p.Gap? then 1 else 0)
      && next.lateCorrections == c.lateCorrections + (if p.TradeCorrection? then 1 else 0)
      && next.records == c.records + 1
      && (p.Terminal? ==> p.complete && p.declared == Audited(c))
  {
    match p
    case TradeCorrection(_, _, _, _) =>
    case _ =>
  }

  lemma {:induction false} RunCounts(ps: seq<Payload>)
    requires CoreRun(ps).Some?
    ensures Audited(CoreRun(ps).value) == Tally(ps) && CoreRun(ps).value.records == |ps|
  {
    hide CoreStep;
    if ps != [] {
      var last := |ps| - 1;
      RunCounts(ps[..last]);
      StepCounts(CoreRun(ps[..last]).value, ps[last]);
    }
  }

  /** Every TERMINAL of an accepted set declares the exact counts of the whole set up to it. */
  lemma {:induction false} TerminalsDeclareTheTally(digest: Body -> Digest, segments: seq<Segment>, incremental: bool, i: nat)
    requires Accepted(digest, segments, incremental)
    requires i < |Flatten(segments)| && Flatten(segments)[i].Terminal?
    ensures Flatten(segments)[i].declared == Tally(Flatten(segments)[..i])
  {
    hide CoreStep;
    var ps := Flatten(segments);
    SetIsOneRun(digest, segments);
    PrefixRuns(ps, i + 1);
    assert ps[..i + 1][..i] == ps[..i];
    RunCounts(ps[..i]);
    StepCounts(CoreRun(ps[..i]).value, ps[i]);
  }
}
