/**
  The trade floor of the offline reconstruction when STARTED declares none: the first RESUMED
  floor takes its place, and corrections the online audit accepted can then be refused.
 */
module ArbitrationFloor {
  import opened Wrappers
  import Powers
  import opened ArbitrationAudit
  import opened ArbitrationRuns
  import opened ArbitrationCanonical
  import opened ArbitrationTrades
  import opened ArbitrationWriter

  /** The position of the first RESUMED record, or the length. */
  function FirstResumed(ps: seq<Payload>): (r: nat)
    ensures r <= |ps|
    ensures r < |ps| ==> ps[r].Resumed?
    ensures forall i :: 0 <= i < r ==> !ps[i].Resumed?
  {
    if ps == [] then 0
    else
      var before := FirstResumed(ps[..|ps| - 1]);
      if before < |ps| - 1 || ps[|ps| - 1].Resumed? then before else |ps|
  }

  /** The floor the offline pass uses, told from the journal. */
  function OfflineFloor(c: Core, ps: seq<Payload>): Option<int> {
    var r := FirstResumed(ps);
    if c.floor.Some? then c.floor
    else if r < |ps| && ps[r].floor.IntFloor? then Some(ps[r].floor.n)
    else None
  }

  /** How the floors move: STARTED sets both, RESUMED fills the offline one if it is open. */
  lemma FloorStep(c: Core, k: Canonical, p: Payload)
    requires CoreStep(c, p).Some? && CollectStep(k, p).Some?
    ensures
      var c', k' := CoreStep(c, p).value, CollectStep(k, p).value;
      && (p.Started? ==>
            c'.floor == (if p.floor.IntFloor? then Some(p.floor.n) else None)
            && k'.floor == (if k.floor.Some? then k.floor else c'.floor))
      && (p.Resumed? ==>
            && c'.floor == c.floor && c.started
            && p.floor == IntFloor(Powers.Max(OrZero(c.lastTrade), OrZero(c.floor)))
            && k'.floor == (if k.floor.Some? then k.floor else Some(p.floor.n)))
      && (!p.Started? && !p.Resumed? ==> c'.floor == c.floor && k'.floor == k.floor)
  {
    match p
    case TradeObservation(_, _, _) =>
    case TradeCorrection(_, _, _, _) =>
    case DepthObservation(_, _, _, _, _) =>
    case _ =>
  }

  lemma {:induction false} OfflineFloorIsCollected(ps: seq<Payload>)
    requires CoreRun(ps).Some? && Collect(ps).Some?
    ensures Collect(ps).value.floor == OfflineFloor(CoreRun(ps).value, ps)
  {
    hide CoreStep, CollectStep;
    if ps != [] {
      var last := |ps| - 1;
      var front := ps[..last];
      OfflineFloorIsCollected(front);
      FloorStep(CoreRun(front).value, Collect(front).value, ps[last]);
      FirstResumedStep(ps);
      if ps[last].Started? {
        assert front == [];
      } else if ps[last].Resumed? {
        ResumedDeclares(ps, FirstResumed(ps));
      }
    }
  }

  lemma FirstResumedStep(ps: seq<Payload>)
    requires ps != []
    ensures
      var before := FirstResumed(ps[..|ps| - 1]);
      FirstResumed(ps) == (if before < |ps| - 1 || ps[|ps| - 1].Resumed? then before else |ps|)
  {
  }

  /** Every RESUMED record declares the effective floor of the journal before it. */
  lemma ResumedDeclares(ps: seq<Payload>, r: nat)
    requires CoreRun(ps).Some? && r < |ps| && ps[r].Resumed?
    ensures CoreRun(ps[..r]).Some?
    ensures
      var c := CoreRun(ps[..r]).value;
      ps[r].floor == IntFloor(Powers.Max(OrZero(c.lastTrade), OrZero(c.floor)))
  {
    PrefixRuns(ps, r + 1);
    assert ps[..r + 1][..r] == ps[..r];
  }

  /** The record is a first unknown correction at or below the floor. */
  ghost predicate UnknownAtOrBelow(p: Payload, floor: int) {
    p.TradeCorrection? && p.kind.Unknown? && p.id.Some? && p.id.value <= floor
  }

  lemma {:induction false} CorrectionsOfJournal(ps: seq<Payload>, floor: int)
    requires CoreRun(ps).Some? && Collect(ps).Some?
    ensures AllClearFloor(Collect(ps).value.corrections, floor) <==>
            forall u :: 0 <= u < |ps| ==> !UnknownAtOrBelow(ps[u], floor)
  {
    hide CoreStep, CollectStep, AllClearFloor, UnknownAtOrBelow;
    if ps == [] {
      EmptyClears(floor);
    } else {
      var last := |ps| - 1;
      var front := ps[..last];
      CorrectionsOfJournal(front, floor);
      OneClears(CoreRun(front).value, Collect(front).value, ps[last], floor);
      assert forall u :: 0 <= u < last ==> front[u] == ps[u];
      if forall u :: 0 <= u < |front| ==> !UnknownAtOrBelow(front[u], floor) {
        forall u | 0 <= u < last ensures !UnknownAtOrBelow(ps[u], floor) {
          assert !UnknownAtOrBelow(front[u], floor);
        }
      }
    }
  }

  lemma EmptyClears(floor: int)
    ensures AllClearFloor(NOTHING.corrections, floor)
  {
  }

  lemma OneClears(c: Core, k: Canonical, p: Payload, floor: int)
    requires CoreStep(c, p).Some? && CollectStep(k, p).Some?
    ensures AllClearFloor(CollectStep(k, p).value.corrections, floor) <==>
            AllClearFloor(k.corrections, floor) && !UnknownAtOrBelow(p, floor)
  {
    hide CoreStep;
    if p.TradeCorrection? {
      CorrectionChecked(c, p);
      var x := Correction(TradeItem(p.id.value, p.observation.value, p.record.value), p.kind);
      Appended(map[], k.corrections, x, floor);
      assert CollectStep(k, p).value.corrections == k.corrections + [x];
    } else {
      assert CollectStep(k, p).value.corrections == k.corrections;
    }
  }

  /** Every correction is at or below the position of the journal at its end. */
  lemma {:induction false} CorrectionsStayBelow(ps: seq<Payload>, u: nat)
    requires CoreRun(ps).Some? && u < |ps| && ps[u].TradeCorrection?
    ensures ps[u].id.Some? && BelowCursor(ps[u].id.value, CoreRun(ps).value)
  {
    hide CoreStep;
    var last := |ps| - 1;
    var c := CoreRun(ps[..last]).value;
    if u == last {
      CorrectionChecked(c, ps[last]);
      TradeFieldsKept(c, ps[last]);
    } else {
      CorrectionsStayBelow(ps[..last], u);
      TradeFieldsKept(c, ps[last]);
      if ps[last].TradeObservation? {
        TradeChecked(c, NOTHING, ps[last]);
      }
    }
  }

  /**
    STARTED declared no floor, a RESUMED record follows, and some first unknown correction either
    comes before that record or is not above the floor it declares.
   */
  ghost predicate FloorMoves(floor: Option<int>, ps: seq<Payload>) {
    var r := FirstResumed(ps);
    && floor.None? && r < |ps| && ps[r].floor.IntFloor?
    && exists u :: 0 <= u < |ps| && UnknownHeldBy(ps, r, u)
  }

  ghost predicate UnknownHeldBy(ps: seq<Payload>, r: int, u: int)
    requires 0 <= r < |ps| && 0 <= u < |ps| && ps[r].Resumed? && ps[r].floor.IntFloor?
  {
    && ps[u].TradeCorrection? && ps[u].kind.Unknown? && ps[u].id.Some?
    && (u < r || ps[u].id.value <= ps[r].floor.n)
  }

  /** The corrections clear the offline floor exactly when the floor did not move over one. */
  lemma ClearanceIsTold(ps: seq<Payload>)
    requires CoreRun(ps).Some? && Collect(ps).Some?
    ensures
      var k := Collect(ps).value;
      !AllClearFloor(k.corrections, OrZero(k.floor)) <==> FloorMoves(CoreRun(ps).value.floor, ps)
  {
    hide CoreRun, Collect, AllClearFloor;
    var c, k, r := CoreRun(ps).value, Collect(ps).value, FirstResumed(ps);
    var floor := OrZero(k.floor);
    OfflineFloorIsCollected(ps);
    CorrectionsOfJournal(ps, floor);
    if c.floor.Some? || r == |ps| {
      forall u | 0 <= u < |ps| ensures !UnknownAtOrBelow(ps[u], floor) {
        UnknownsClearOnlineFloor(ps, u);
      }
    } else {
      ResumedDeclares(ps, r);
      forall u | 0 <= u < |ps| ensures UnknownAtOrBelow(ps[u], floor) <==> UnknownHeldBy(ps, r, u) {
        if u < r && ps[u].TradeCorrection? {
          assert ps[..r][u] == ps[u];
          CorrectionsStayBelow(ps[..r], u);
        }
      }
    }
  }

  /**
    Exactly when the offline pass refuses an accepted set for its floor: it does so only if the
    floor moved over an unknown correction, and whenever it did and the raw capture backs every
    trade and correction.
   */
  lemma {:induction false} FloorRejectsExactly(digest: Body -> Digest, segments: seq<Segment>, incremental: bool, raw: RawUnion, boundToLast: bool)
    requires Accepted(digest, segments, incremental) && Collect(Flatten(segments)).Some?
    ensures
      var k := Collect(Flatten(segments)).value;
      var refused := Verdict(k, raw, boundToLast) == Err(BelowFloor);
      var moved := FloorMoves(RunSet(digest, segments).value.core.floor, Flatten(segments));
      && (refused ==> moved)
      && (TradesBacked(raw, k.trades) && CorrectionsBacked(raw, k.corrections) ==> (refused <==> moved))
  {
    hide RunSet, CoreRun, Collect, Verdict, AllClearFloor, FloorMoves, TradesBacked, CorrectionsBacked;
    SetIsOneRun(digest, segments);
    ClearanceIsTold(Flatten(segments));
    OfflineVerdict(digest, segments, incremental, raw, boundToLast);
  }

  lemma UnknownsClearOnlineFloor(ps: seq<Payload>, u: nat)
    requires CoreRun(ps).Some? && Collect(ps).Some? && u < |ps|
    ensures !UnknownAtOrBelow(ps[u], OrZero(CoreRun(ps).value.floor))
  {
    hide CoreStep, CollectStep, PublishedFacts;
    CollectAgrees(ps);
    var c, k := CoreRun(ps).value, Collect(ps).value;
    forall i | 0 <= i < |k.corrections| ensures ClearsFloor(k.corrections[i], OrZero(c.floor)) {
      assert k.corrections[i].kind.Unknown? ==> UnknownKnown(k.corrections[i], c);
    }
    CorrectionsOfJournal(ps, OrZero(c.floor));
  }

  // ----- a journal on which the two disagree -----

  const STARTED := Opening("BTCUSDT")
  const TRADE := TradeObservation(Some(5), Some(FIVE_DIGEST), Some(LINEAGE))
  const LATE := TradeCorrection(Some(3), Some(THREE_DIGEST), Some(LINEAGE), Unknown)
  const CAPTURE: RawUnion :=
    map[5 := [Evidence(LINEAGE, FIVE_DIGEST)], 3 := [Evidence(LINEAGE, THREE_DIGEST)]]

  function FirstSegment(digest: Body -> Digest): Segment {
    Segment(Write(digest, [STARTED, TRADE, LATE]), 0)
  }

  const STARTED_CORE := FRESH_CORE.(records := 1, started := true)
  const TRADED_CORE := STARTED_CORE.(records := 2, observations := 1, trades := 1, lastTrade := Some(5), published := map[5 := FIVE_DIGEST])
  const FIRST_CORE := TRADED_CORE.(records := 3, lateCorrections := 1, corrected := map[3 := THREE_DIGEST])

  lemma ExampleCores()
    ensures CoreStep(FRESH_CORE, STARTED) == Some(STARTED_CORE)
    ensures CoreStep(STARTED_CORE, TRADE) == Some(TRADED_CORE)
    ensures CoreStep(TRADED_CORE, LATE) == Some(FIRST_CORE)
  {
  }

  function FirstAudit(digest: Body -> Digest): Audit {
    Audit(FIRST_CORE, Some("BTCUSDT"), false, 1, None, 0, LastSha(FirstSegment(digest).envelopes))
  }

  lemma FirstSegmentRuns(digest: Body -> Digest)
    ensures RunSet(digest, [FirstSegment(digest)]) == Some(FirstAudit(digest))
  {
    hide CoreStep, Write, RunFile;
    ExampleCores();
    EmptyFile(digest, FRESH_AUDIT);
    WrittenStep(digest, FRESH_AUDIT, [], STARTED);
    assert [] + [STARTED] == [STARTED];
    WrittenStep(digest, FRESH_AUDIT, [STARTED], TRADE);
    assert [STARTED] + [TRADE] == [STARTED, TRADE];
    WrittenStep(digest, FRESH_AUDIT, [STARTED, TRADE], LATE);
    assert [STARTED, TRADE] + [LATE] == [STARTED, TRADE, LATE];
    WriteSize(digest, [STARTED, TRADE, LATE]);
    assert [FirstSegment(digest)][..0] == [];
  }

  function Resumption(digest: Body -> Digest): Payload {
    Resumed(Some("BTCUSDT"), Some(LastSha(FirstSegment(digest).envelopes)), IntFloor(5), Some("resume"), 0, [])
  }

  const TERMINAL := Closing(1, 0, 0, 1)

  function SecondSegment(digest: Body -> Digest): Segment {
    Segment(Write(digest, [Resumption(digest), TERMINAL]), 0)
  }

  lemma SecondSegmentRuns(digest: Body -> Digest)
    ensures SecondSegment(digest).envelopes != []
    ensures RunFile(digest, FirstAudit(digest), SecondSegment(digest).envelopes).Some?
    ensures
      var a := RunFile(digest, FirstAudit(digest), SecondSegment(digest).envelopes).value;
      a.terminalSeen && a.core.started
  {
    hide FirstSegment, Write, RunFile, CoreStep;
    var st, resumed := FirstAudit(digest), Resumption(digest);
    EmptyFile(digest, st);
    ResumedCore(digest);
    WrittenStep(digest, st, [], resumed);
    assert [] + [resumed] == [resumed];
    WrittenStep(digest, st, [resumed], TERMINAL);
    assert [resumed] + [TERMINAL] == [resumed, TERMINAL];
    WriteSize(digest, [resumed, TERMINAL]);
  }

  lemma ResumedCore(digest: Body -> Digest)
    ensures CoreStep(FIRST_CORE, Resumption(digest)) == Some(FIRST_CORE.(records := 4))
    ensures CoreStep(FIRST_CORE.(records := 4), TERMINAL) == Some(FIRST_CORE.(records := 5))
  {
    hide FirstSegment;
  }

  /**
    The agreement needs its condition: this set passes the closed audit, the raw capture holds
    exactly its two trades, and the offline pass refuses the correction as below the floor.
   */
  lemma {:induction false} NullFloorDisagrees(digest: Body -> Digest)
    ensures Accepted(digest, [FirstSegment(digest), SecondSegment(digest)], false)
    ensures
      var k := Collect(Flatten([FirstSegment(digest), SecondSegment(digest)]));
      k.Some? && Verdict(k.value, CAPTURE, false) == Err(BelowFloor)
  {
    hide Write, RunFile, Collect, Verdict;
    var segments := [FirstSegment(digest), SecondSegment(digest)];
    assert segments[..1] == [FirstSegment(digest)];
    FirstSegmentRuns(digest);
    SecondSegmentRuns(digest);
    WriteSize(digest, [STARTED, TRADE, LATE]);
    WriteSize(digest, [Resumption(digest), TERMINAL]);
    assert [FirstSegment(digest)][..0] == [];
    assert Flatten([FirstSegment(digest)]) == [STARTED, TRADE, LATE];
    assert Flatten(segments) == [STARTED, TRADE, LATE, Resumption(digest), TERMINAL];
    CollectedExample(Resumption(digest));
  }

  const FIVE := TradeItem(5, FIVE_DIGEST, LINEAGE)
  const THREE := Correction(TradeItem(3, THREE_DIGEST, LINEAGE), Unknown)

  lemma CollectedExample(resumed: Payload)
    requires resumed.Resumed? && resumed.floor == IntFloor(5) && resumed.artifacts == []
    ensures
      var k := Collect([STARTED, TRADE, LATE, resumed, TERMINAL]);
      k.Some? && Verdict(k.value, CAPTURE, false) == Err(BelowFloor)
  {
    hide Collect, Verdict;
    CollectNothing();
    CollectNext([], STARTED);
    assert [] + [STARTED] == [STARTED];
    CollectNext([STARTED], TRADE);
    assert [STARTED] + [TRADE] == [STARTED, TRADE];
    CollectNext([STARTED, TRADE], LATE);
    assert [STARTED, TRADE] + [LATE] == [STARTED, TRADE, LATE];
    CollectNext([STARTED, TRADE, LATE], resumed);
    assert [STARTED, TRADE, LATE] + [resumed] == [STARTED, TRADE, LATE, resumed];
    CollectNext([STARTED, TRADE, LATE, resumed], TERMINAL);
    assert [STARTED, TRADE, LATE, resumed] + [TERMINAL] == [STARTED, TRADE, LATE, resumed, TERMINAL];
    assert [] + [FIVE] == [FIVE] && [] + [THREE] == [THREE];
    assert NOTHING.artifacts + STARTED.artifacts == [] && NOTHING.artifacts + resumed.artifacts == [];
    VerdictExample();
  }

  lemma VerdictExample()
    ensures Verdict(Canonical([FIVE], [THREE], Some(5), true, [], [], NoDepth, None, None, []), CAPTURE, false) == Err(BelowFloor)
  {
    assert [FIVE][..0] == [] && [THREE][..0] == [];
    assert CAPTURE[5] == [Evidence(LINEAGE, FIVE_DIGEST)] && CAPTURE[3] == [Evidence(LINEAGE, THREE_DIGEST)];
    assert CAPTURE[5][0] == Evidence(LINEAGE, FIVE_DIGEST) && CAPTURE[3][0] == Evidence(LINEAGE, THREE_DIGEST);
    assert Unbacked(CAPTURE, FIVE).None? && Unbacked(CAPTURE, THREE.item).None?;
    assert TradePass(CAPTURE, []) == Ok(map[]);
    assert TradePass(CAPTURE, [FIVE]) == Ok(map[5 := FIVE_DIGEST]);
    var base := map[5 := FIVE_DIGEST];
    assert CorrectionPass(CAPTURE, base, [], 5, true) == Ok(base);
    assert CorrectionPass(CAPTURE, base, [THREE], 5, true) == Err(BelowFloor);
  }
}
