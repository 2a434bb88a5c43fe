/**
  The online audit of arbitration journals: an automaton over hash-chained records that is carried
  from one journal segment to the next.
 */
module ArbitrationAudit {
  import opened Wrappers
  import Powers

  type Digest = string

  const ZERO_DIGEST: Digest := "0000000000000000000000000000000000000000000000000000000000000000"

  /** A `trade_floor` field: null, an integer, or a value of another type. */
  datatype Floor = NoFloor | IntFloor(n: int) | BadFloor

  datatype Kind = Duplicate | Unknown | Unclassified

  datatype Counters = Counters(trades: int, depthFrames: int, gaps: int, lateCorrections: int)

  /** The payloads of a journal; a field of the wrong type or form reads as absent. */
  datatype Payload =
    | Started(symbol: Option<string>, floor: Floor, artifacts: seq<string>)
    | Resumed(symbol: Option<string>, chain: Option<Digest>, floor: Floor, mode: Option<string>, tailBytes: int, artifacts: seq<string>)
    | Terminal(complete: bool, declared: Counters, scope: Option<string>, servingLane: Option<string>)
    | TradeObservation(id: Option<int>, observation: Option<Digest>, record: Option<Digest>)
    | TradeCorrection(id: Option<int>, observation: Option<Digest>, record: Option<Digest>, kind: Kind)
    | TradeLag(buffered: Option<int>)
    | TradeConflict(id: Option<int>)
    | DepthObservation(first: Option<int>, final: Option<int>, lane: Option<string>, observation: Option<Digest>, record: Option<Digest>)
    | Gap(last: Option<int>)
    | DepthRebootstrap(complete: bool, boundary: Option<int>, rebootLane: Option<string>)
    | DepthSwitchProven
    | UnknownEvent

  datatype Body = Body(recordIndex: int, previous: Digest, payload: Payload)

  datatype Envelope = Envelope(body: Body, sha: Digest)

  /** The complete records of one journal file and the length of its torn last line. */
  datatype Segment = Segment(envelopes: seq<Envelope>, tail: nat)

  /** The part of the audit state that depends only on the payloads. */
  datatype Core = Core(
    records: nat,
    observations: nat,
    trades: nat,
    depthFrames: nat,
    gaps: nat,
    lateCorrections: nat,
    rebootstraps: nat,
    statusRecords: nat,
    lastTrade: Option<int>,
    lastDepth: Option<int>,
    exactNext: Option<int>,
    published: map<int, Digest>,
    corrected: map<int, Digest>,
    started: bool,
    floor: Option<int>)

  /** The whole audit state: the core and what chains the segments. */
  datatype Audit = Audit(
    core: Core,
    symbol: Option<string>,
    terminalSeen: bool,
    segments: nat,
    lastSegmentSha: Option<Digest>,
    lastSegmentTail: nat,
    lastRecordSha: Digest)

  const FRESH_CORE := Core(0, 0, 0, 0, 0, 0, 0, 0, None, None, None, map[], map[], false, None)
  const FRESH_AUDIT := Audit(FRESH_CORE, None, false, 0, None, 0, ZERO_DIGEST)

  function OrZero(n: Option<int>): int {
    n.GetOr(0)
  }

  // ----- one payload -----

  function TradeStep(c: Core, id: Option<int>, observation: Option<Digest>, record: Option<Digest>): Option<Core> {
    if id.None? || id.value <= 0 || observation.None? || record.None? then None
    else if c.lastTrade.Some? && id.value <= c.lastTrade.value then None
    else if c.floor.Some? && id.value <= c.floor.value then None
    else
      Some(c.(lastTrade := id,
              published := c.published[id.value := observation.value],
              trades := c.trades + 1,
              observations := c.observations + 1))
  }

  function CorrectionStep(c: Core, id: Option<int>, observation: Option<Digest>, record: Option<Digest>, kind: Kind): Option<Core> {
    if id.None? || c.lastTrade.None? || id.value > c.lastTrade.value || observation.None? || record.None? then None
    else
      match kind
      case Duplicate =>
        var known := if id.value in c.published then Some(c.published[id.value])
                     else if id.value in c.corrected then Some(c.corrected[id.value]) else None;
        if known != observation then None else Some(c.(lateCorrections := c.lateCorrections + 1))
      case Unknown =>
        if id.value <= OrZero(c.floor) || id.value in c.published || id.value in c.corrected then None
        else
          Some(c.(corrected := c.corrected[id.value := observation.value],
                  lateCorrections := c.lateCorrections + 1))
      case Unclassified => None
  }

  function DepthStep(c: Core, p: Payload): Option<Core>
    requires p.DepthObservation?
  {
    if p.first.None? || p.final.None? || p.first.value <= 0 || p.final.value < p.first.value then None
    else if p.lane.None? || p.observation.None? || p.record.None? then None
    else if c.exactNext.Some? && p.first.value != c.exactNext.value then None
    else if c.exactNext.None? && c.lastDepth.Some? && p.first.value <= c.lastDepth.value then None
    else
      Some(c.(exactNext := Some(p.final.value + 1),
              lastDepth := p.final,
              depthFrames := c.depthFrames + 1,
              observations := c.observations + 1))
  }

  function GapStep(c: Core, last: Option<int>): Option<Core> {
    if last != Some(OrZero(c.lastDepth)) then None
    else Some(c.(exactNext := None, gaps := c.gaps + 1))
  }

  function Audited(c: Core): Counters {
    Counters(c.trades, c.depthFrames, c.gaps, c.lateCorrections)
  }

  /** What a payload does to the core, apart from the record count. */
  function PayloadStep(c: Core, p: Payload): Option<Core> {
    match p
    case Started(symbol, floor, _) =>
      if symbol.None? || floor.BadFloor? || (floor.IntFloor? && floor.n < 0) then None
      else Some(c.(started := true, floor := if floor.IntFloor? then Some(floor.n) else None))
    case Resumed(_, _, floor, _, _, _) =>
      if !c.started || floor != IntFloor(Powers.Max(OrZero(c.lastTrade), OrZero(c.floor))) then None else Some(c)
    case Terminal(complete, declared, _, _) =>
      if !c.started || !complete || declared != Audited(c) then None else Some(c)
    case TradeObservation(id, observation, record) => TradeStep(c, id, observation, record)
    case TradeCorrection(id, observation, record, kind) => CorrectionStep(c, id, observation, record, kind)
    case TradeLag(buffered) => if buffered.None? then None else Some(c.(statusRecords := c.statusRecords + 1))
    case TradeConflict(id) => if id.None? then None else Some(c.(statusRecords := c.statusRecords + 1))
    case DepthObservation(_, _, _, _, _) => DepthStep(c, p)
    case Gap(last) => GapStep(c, last)
    case DepthRebootstrap(complete, _, _) =>
      if c.gaps == 0 || c.exactNext.Some? || !complete then None
      else Some(c.(rebootstraps := c.rebootstraps + 1, statusRecords := c.statusRecords + 1))
    case DepthSwitchProven => Some(c.(statusRecords := c.statusRecords + 1))
    case UnknownEvent => None
  }

  function CoreStep(c: Core, p: Payload): Option<Core> {
    var next := PayloadStep(c, p);
    if next.None? then None else Some(next.value.(records := next.value.records + 1))
  }

  // ----- one record -----

  /** The record has its own position, links to the one before it and carries its own digest. */
  predicate Chained(digest: Body -> Digest, e: Envelope, fileIndex: nat, previous: Digest) {
    e.body.recordIndex == fileIndex && e.body.previous == previous && e.sha == digest(e.body)
  }

  /** STARTED opens the first segment; RESUMED opens a later one and links to the one before. */
  predicate OpensRightly(st: Audit, p: Payload, fileIndex: nat) {
    match p
    case Started(_, _, _) => fileIndex == 0 && st.segments == 0
    case Resumed(symbol, chain, _, mode, tailBytes, _) =>
      && fileIndex == 0 && st.segments > 0
      && symbol == st.symbol && chain.Some? && chain == st.lastSegmentSha
      && mode.Some? && tailBytes == st.lastSegmentTail
    case _ => true
  }

  function Step(digest: Body -> Digest, st: Audit, e: Envelope, fileIndex: nat, previous: Digest): Option<Audit> {
    var p := e.body.payload;
    if !Chained(digest, e, fileIndex, previous) || st.terminalSeen || !OpensRightly(st, p, fileIndex) then None
    else
      var core := CoreStep(st.core, p);
      if core.None? then None
      else
        Some(st.(core := core.value,
                 symbol := if p.Started? then p.symbol else st.symbol,
                 terminalSeen := p.Terminal?,
                 lastRecordSha := e.sha))
  }

  // ----- whole segments -----

  function Opened(st: Audit): Audit {
    st.(lastSegmentSha := if st.segments > 0 then Some(st.lastRecordSha) else st.lastSegmentSha,
        terminalSeen := false)
  }

  function Closed(st: Audit, tail: nat): Audit {
    st.(segments := st.segments + 1, lastSegmentTail := tail)
  }

  function LastSha(es: seq<Envelope>): Digest {
    if es == [] then ZERO_DIGEST else es[|es| - 1].sha
  }

  /** The audit state after the records of one opened file. */
  function RunFile(digest: Body -> Digest, st: Audit, es: seq<Envelope>): Option<Audit> {
    if es == [] then Some(Opened(st))
    else
      var last := |es| - 1;
      var before := RunFile(digest, st, es[..last]);
      if before.None? then None else Step(digest, before.value, es[last], last, LastSha(es[..last]))
  }

  /** The audit state after whole segments; an empty file is refused. */
  function RunSet(digest: Body -> Digest, segments: seq<Segment>): Option<Audit> {
    if segments == [] then Some(FRESH_AUDIT)
    else
      var last := |segments| - 1;
      var before := RunSet(digest, segments[..last]);
      if before.None? || segments[last].envelopes == [] then None
      else
        var file := RunFile(digest, before.value, segments[last].envelopes);
        if file.None? then None else Some(Closed(file.value, segments[last].tail))
  }

  /** Only the last file of a closed set must end with a whole line. */
  predicate Finished(segments: seq<Segment>, st: Audit, incremental: bool) {
    && segments != []
    && (incremental || segments[|segments| - 1].tail == 0)
    && st.core.started && (incremental || st.terminalSeen)
  }

  predicate Accepted(digest: Body -> Digest, segments: seq<Segment>, incremental: bool) {
    RunSet(digest, segments).Some? && Finished(segments, RunSet(digest, segments).value, incremental)
  }

  // ----- the audit state as an object -----

  class AuditState {
    var records: nat
    var observations: nat
    var trades: nat
    var depthFrames: nat
    var gaps: nat
    var lateCorrections: nat
    var rebootstraps: nat
    var statusRecords: nat
    var lastTrade: Option<int>
    var lastDepth: Option<int>
    var exactNext: Option<int>
    var published: map<int, Digest>
    var corrected: map<int, Digest>
    var startedSeen: bool
    var terminalSeen: bool
    var tradeFloor: Option<int>
    var symbol: Option<string>
    var segments: nat
    var lastSegmentSha: Option<Digest>
    var lastSegmentTail: nat
    var lastRecordSha: Digest

    function CoreView(): Core
      reads this
    {
      Core(records, observations, trades, depthFrames, gaps, lateCorrections, rebootstraps, statusRecords,
           lastTrade, lastDepth, exactNext, published, corrected, startedSeen, tradeFloor)
    }

    function View(): Audit
      reads this
    {
      Audit(CoreView(), symbol, terminalSeen, segments, lastSegmentSha, lastSegmentTail, lastRecordSha)
    }

    constructor ()
      ensures View() == FRESH_AUDIT
    {
      records, observations, trades, depthFrames, gaps, lateCorrections, rebootstraps, statusRecords :=
        0, 0, 0, 0, 0, 0, 0, 0;
      lastTrade, lastDepth, exactNext := None, None, None;
      published, corrected := map[], map[];
      startedSeen, terminalSeen, tradeFloor, symbol := false, false, None, None;
      segments, lastSegmentSha, lastSegmentTail, lastRecordSha := 0, None, 0, ZERO_DIGEST;
    }

    method ApplyTrade(p: Payload) returns (ok: bool)
      requires p.TradeObservation?
      modifies this`lastTrade, this`published, this`trades, this`observations
      ensures ok == TradeStep(old(CoreView()), p.id, p.observation, p.record).Some?
      ensures ok ==> CoreView() == TradeStep(old(CoreView()), p.id, p.observation, p.record).value
    {
      if p.id.None? || p.id.value <= 0 || p.observation.None? || p.record.None? {
        return false;
      }
      var id := p.id.value;
      if (lastTrade.Some? && id <= lastTrade.value) || (tradeFloor.Some? && id <= tradeFloor.value) {
        return false;
      }
      lastTrade := Some(id);
      published := published[id := p.observation.value];
      trades := trades + 1;
      observations := observations + 1;
      return true;
    }

    method ApplyCorrection(p: Payload) returns (ok: bool)
      requires p.TradeCorrection?
      modifies this`corrected, this`lateCorrections
      ensures ok == CorrectionStep(old(CoreView()), p.id, p.observation, p.record, p.kind).Some?
      ensures ok ==> CoreView() == CorrectionStep(old(CoreView()), p.id, p.observation, p.record, p.kind).value
    {
      if p.id.None? || lastTrade.None? || p.id.value > lastTrade.value || p.observation.None? || p.record.None? {
        return false;
      }
      var id := p.id.value;
      match p.kind {
        case Duplicate =>
          if id in published {
            if published[id] != p.observation.value {
              return false;
            }
          } else if id !in corrected || corrected[id] != p.observation.value {
            return false;
          }
        case Unknown =>
          if id <= OrZero(tradeFloor) || id in published || id in corrected {
            return false;
          }
          corrected := corrected[id := p.observation.value];
        case Unclassified =>
          return false;
      }
      lateCorrections := lateCorrections + 1;
      return true;
    }

    method ApplyDepth(p: Payload) returns (ok: bool)
      requires p.DepthObservation?
      modifies this`exactNext, this`lastDepth, this`depthFrames, this`observations
      ensures ok == DepthStep(old(CoreView()), p).Some?
      ensures ok ==> CoreView() == DepthStep(old(CoreView()), p).value
    {
      if p.first.None? || p.final.None? || p.first.value <= 0 || p.final.value < p.first.value
         || p.lane.None? || p.observation.None? || p.record.None? {
        return false;
      }
      if exactNext.Some? {
        if p.first.value != exactNext.value {
          return false;
        }
      } else if lastDepth.Some? && p.first.value <= lastDepth.value {
        return false;
      }
      exactNext := Some(p.final.value + 1);
      lastDepth := p.final;
      depthFrames := depthFrames + 1;
      observations := observations + 1;
      return true;
    }

    /** The records that open or close a segment. */
    method ApplyBoundary(p: Payload, fileIndex: nat) returns (ok: bool)
      requires p.Started? || p.Resumed? || p.Terminal?
      modifies this`symbol, this`tradeFloor, this`startedSeen, this`terminalSeen
      ensures ok == (OpensRightly(old(View()), p, fileIndex) && PayloadStep(old(CoreView()), p).Some?)
      ensures ok ==>
        && CoreView() == PayloadStep(old(CoreView()), p).value
        && symbol == (if p.Started? then p.symbol else old(symbol))
        && terminalSeen == (p.Terminal? || old(terminalSeen))
    {
      match p {
        case Started(name, floor, _) =>
          if fileIndex != 0 || segments != 0 || name.None? || floor.BadFloor? || (floor.IntFloor? && floor.n < 0) {
            return false;
          }
          symbol := name;
          tradeFloor := if floor.IntFloor? then Some(floor.n) else None;
          startedSeen := true;
        case Resumed(name, chain, floor, mode, tailBytes, _) =>
          if fileIndex != 0 || segments == 0 || !startedSeen || name != symbol || chain.None? || chain != lastSegmentSha {
            return false;
          }
          if floor != IntFloor(Powers.Max(OrZero(lastTrade), OrZero(tradeFloor))) || mode.None? || tailBytes != lastSegmentTail {
            return false;
          }
        case Terminal(complete, declared, _, _) =>
          if !startedSeen || !complete || declared != Counters(trades, depthFrames, gaps, lateCorrections) {
            return false;
          }
          terminalSeen := true;
      }
      return true;
    }

    /** The records that mark a gap or only report a status. */
    method ApplyStatus(p: Payload) returns (ok: bool)
      requires p.TradeLag? || p.TradeConflict? || p.Gap? || p.DepthRebootstrap? || p.DepthSwitchProven? || p.UnknownEvent?
      modifies this`exactNext, this`gaps, this`rebootstraps, this`statusRecords
      ensures ok == PayloadStep(old(CoreView()), p).Some?
      ensures ok ==> CoreView() == PayloadStep(old(CoreView()), p).value
    {
      match p {
        case TradeLag(buffered) =>
          if buffered.None? {
            return false;
          }
        case TradeConflict(id) =>
          if id.None? {
            return false;
          }
        case Gap(last) =>
          if last.None? || last.value != OrZero(lastDepth) {
            return false;
          }
          exactNext := None;
          gaps := gaps + 1;
          return true;
        case DepthRebootstrap(complete, _, _) =>
          if gaps == 0 || exactNext.Some? || !complete {
            return false;
          }
          rebootstraps := rebootstraps + 1;
        case DepthSwitchProven =>
        case UnknownEvent =>
          return false;
      }
      statusRecords := statusRecords + 1;
      return true;
    }

    /** The event branches of `_apply_record`; opening records need the file position. */
    method ApplyPayload(p: Payload, fileIndex: nat) returns (ok: bool)
      modifies this`observations, this`trades, this`depthFrames, this`gaps, this`lateCorrections, this`rebootstraps,
        this`statusRecords, this`lastTrade, this`lastDepth, this`exactNext, this`published, this`corrected,
        this`startedSeen, this`terminalSeen, this`tradeFloor, this`symbol
      ensures ok == (OpensRightly(old(View()), p, fileIndex) && PayloadStep(old(CoreView()), p).Some?)
      ensures ok ==>
        && CoreView() == PayloadStep(old(CoreView()), p).value
        && symbol == (if p.Started? then p.symbol else old(symbol))
        && terminalSeen == (p.Terminal? || old(terminalSeen))
    {
      hide TradeStep, CorrectionStep, DepthStep, GapStep;
      match p {
        case Started(_, _, _) => ok := ApplyBoundary(p, fileIndex);
        case Resumed(_, _, _, _, _, _) => ok := ApplyBoundary(p, fileIndex);
        case Terminal(_, _, _, _) => ok := ApplyBoundary(p, fileIndex);
        case TradeObservation(_, _, _) => ok := ApplyTrade(p);
        case TradeCorrection(_, _, _, _) => ok := ApplyCorrection(p);
        case DepthObservation(_, _, _, _, _) => ok := ApplyDepth(p);
        case _ => ok := ApplyStatus(p);
      }
    }

    /** `_apply_record`. */
    method ApplyRecord(digest: Body -> Digest, e: Envelope, fileIndex: nat, previous: Digest) returns (ok: bool)
      modifies this
      ensures ok == Step(digest, old(View()), e, fileIndex, previous).Some?
      ensures ok ==> View() == Step(digest, old(View()), e, fileIndex, previous).value
    {
      hide OpensRightly, PayloadStep;
      if !Chained(digest, e, fileIndex, previous) || terminalSeen {
        return false;
      }
      ok := ApplyPayload(e.body.payload, fileIndex);
      if ok {
        lastRecordSha := e.sha;
        records := records + 1;
      }
    }

    /** `_audit_file`: walks one segment against the shared state. */
    method AuditFile(digest: Body -> Digest, segment: Segment, tolerateTail: bool) returns (ok: bool)
      modifies this
      ensures ok ==
        (segment.envelopes != [] && RunFile(digest, old(View()), segment.envelopes).Some?
         && (tolerateTail || segment.tail == 0))
      ensures ok ==> View() == Closed(RunFile(digest, old(View()), segment.envelopes).value, segment.tail)
    {
      hide Step, RunFile, LastSha;
      NoRecords(digest, View());
      if segments > 0 {
        lastSegmentSha := Some(lastRecordSha);
      }
      terminalSeen := false;
      var previous := ZERO_DIGEST;
      var es := segment.envelopes;
      for i := 0 to |es|
        invariant RunFile(digest, old(View()), es[..i]) == Some(View())
        invariant previous == LastSha(es[..i])
      {
        OneMoreRecord(digest, old(View()), es, i);
        var applied := ApplyRecord(digest, es[i], i, previous);
        if !applied {
          FileStops(digest, old(View()), es, i + 1);
          return false;
        }
        previous := es[i].sha;
      }
      assert es[..|es|] == es;
      if es == [] || (segment.tail > 0 && !tolerateTail) {
        return false;
      }
      segments := segments + 1;
      lastSegmentTail := segment.tail;
      return true;
    }
  }

  lemma NoRecords(digest: Body -> Digest, st: Audit)
    ensures RunFile(digest, st, []) == Some(Opened(st)) && LastSha([]) == ZERO_DIGEST
  {
  }

  lemma OneMoreRecord(digest: Body -> Digest, st: Audit, es: seq<Envelope>, i: nat)
    requires i < |es| && RunFile(digest, st, es[..i]).Some?
    ensures RunFile(digest, st, es[..i + 1]) == Step(digest, RunFile(digest, st, es[..i]).value, es[i], i, LastSha(es[..i]))
    ensures LastSha(es[..i + 1]) == es[i].sha
  {
    hide Step;
    assert es[..i + 1][..i] == es[..i];
  }

  lemma {:induction false} FileStops(digest: Body -> Digest, st: Audit, es: seq<Envelope>, i: nat)
    requires i <= |es| && RunFile(digest, st, es[..i]).None?
    ensures RunFile(digest, st, es).None?
  {
    hide Step;
    if i < |es| {
      assert es[..|es| - 1][..i] == es[..i];
      FileStops(digest, st, es[..|es| - 1], i);
    } else {
      assert es[..i] == es;
    }
  }

  lemma {:induction false} SetStops(digest: Body -> Digest, segments: seq<Segment>, i: nat)
    requires i <= |segments| && RunSet(digest, segments[..i]).None?
    ensures RunSet(digest, segments).None?
  {
    hide RunFile;
    if i < |segments| {
      assert segments[..|segments| - 1][..i] == segments[..i];
      SetStops(digest, segments[..|segments| - 1], i);
    } else {
      assert segments[..i] == segments;
    }
  }

  /** `audit_journal_set`: every segment in order, then the closing checks; the report is the state. */
  method AuditJournalSet(digest: Body -> Digest, segments: seq<Segment>, incremental: bool) returns (report: Option<Audit>)
    ensures report.Some? == Accepted(digest, segments, incremental)
    ensures report.Some? ==> report == RunSet(digest, segments)
  {
    hide RunFile;
    if segments == [] {
      return None;
    }
    var state := new AuditState();
    for i := 0 to |segments|
      invariant RunSet(digest, segments[..i]) == Some(state.View())
      invariant i == |segments| ==> incremental || segments[i - 1].tail == 0
    {
      assert segments[..i + 1][..i] == segments[..i];
      var ok := state.AuditFile(digest, segments[i], incremental || i < |segments| - 1);
      if !ok {
        if RunSet(digest, segments[..i + 1]).None? {
          SetStops(digest, segments, i + 1);
        }
        return None;
      }
    }
    assert segments[..|segments|] == segments;
    if !state.startedSeen || (!incremental && !state.terminalSeen) {
      return None;
    }
    return Some(state.View());
  }
}
