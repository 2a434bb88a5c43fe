/**
  The continuity and freshness checks that the segment scanner makes on the payloads of one
  stream, and their agreement with the order book's own continuity rule.
 */
module DepthContinuity {
  import opened Wrappers
  import opened Streams
  import opened Powers
  import opened Json
  import opened BookSides
  import opened OrderBook

  datatype RawRecord = RawRecord(payload: Payload, receiveMonoNs: nat)

  const FRESHNESS_NS: nat := 30 * 1_000_000_000
  const STARTUP_GRACE_NS: nat := 30 * 1_000_000_000

  /** The fields of `_SequenceState`. */
  datatype Sequence = Sequence(
    started: bool,
    first: Option<nat>,
    final: Option<nat>,
    previousMono: Option<nat>,
    lastMarketMono: nat,
    firstActiveMono: Option<nat>,
    lastActiveMono: Option<nat>,
    activeEnd: Option<nat>,
    shutdownEvents: nat)

  const FRESH := Sequence(false, None, None, None, 0, None, None, None, 0)

  datatype SequenceError =
    | TimeRegressed | NotAnObject | BadIdentity | BadField | CountOverflow | MarketGap
    | InvertedRange | CannotBridge | Discontinuity | SequenceOverflow | TradeRegressed

  /** `_levels`: a list of pairs of strings; the strings need not be decimals. */
  predicate LevelPairs(v: Value) {
    v.Array? && forall i :: 0 <= i < |v.items| ==>
      && v.items[i].Array? && |v.items[i].items| == 2
      && v.items[i].items[0].Text? && v.items[i].items[1].Text?
  }

  predicate IsShutdown(payload: Payload) {
    payload.Some? && payload.value.Object? && Get(payload.value.fields, "e") == Text("serverShutdown")
  }

  /** `_observe_market_message`. */
  function ObserveMarket(st: Sequence, mono: nat): Result<Sequence, SequenceError> {
    var st := st.(lastMarketMono := mono);
    if st.activeEnd.None? || mono > st.activeEnd.value then Ok(st)
    else if st.lastActiveMono.Some? && mono - st.lastActiveMono.value > FRESHNESS_NS then Err(MarketGap)
    else Ok(st.(firstActiveMono := if st.firstActiveMono.None? then Some(mono) else st.firstActiveMono,
                lastActiveMono := Some(mono)))
  }

  /** The depth part: bridge the snapshot once, then cover the next sequence number each time. */
  function ValidateDepth(st: Sequence, fields: map<string, Value>, snapshotSequence: nat)
    : Result<Sequence, SequenceError>
  {
    var first, final := AsU64(Get(fields, "U")), AsU64(Get(fields, "u"));
    if first.None? || final.None? then Err(BadField)
    else if first.value > final.value then Err(InvertedRange)
    else if !LevelPairs(Get(fields, "b")) || !LevelPairs(Get(fields, "a")) then Err(BadField)
    else if !st.started then
      if final.value <= snapshotSequence then Ok(st)
      else if snapshotSequence == U64_MAX then Err(SequenceOverflow)
      else if first.value > snapshotSequence + 1 || final.value < snapshotSequence + 1 then Err(CannotBridge)
      else Ok(st.(started := true, first := Some(first.value), final := Some(final.value)))
    else if st.final.None? || st.final.value == U64_MAX then Err(SequenceOverflow)
    else if first.value > st.final.value + 1 || final.value < st.final.value + 1 then Err(Discontinuity)
    else Ok(st.(final := Some(final.value)))
  }

  /** The trade part: identifiers strictly increase, with no promise of consecutive ones. */
  function ValidateTrade(st: Sequence, fields: map<string, Value>): Result<Sequence, SequenceError> {
    var id := AsU64(Get(fields, "t"));
    if id.None? || AsU64(Get(fields, "T")).None? then Err(BadField)
    else if !Get(fields, "p").Text? || !Get(fields, "q").Text? then Err(BadField)
    else if !Get(fields, "m").Boolean? || !Get(fields, "M").Boolean? then Err(BadField)
    else if st.final.Some? && id.value <= st.final.value then Err(TradeRegressed)
    else Ok(st.(started := true, first := if st.started then st.first else Some(id.value),
                final := Some(id.value)))
  }

  /** `_validate_application_payload` as a step from one sequence state to the next. */
  function Validate(st: Sequence, record: RawRecord, kind: StreamKind, symbol: string, snapshotSequence: nat)
    : Result<Sequence, SequenceError>
  {
    if st.previousMono.Some? && record.receiveMonoNs < st.previousMono.value then Err(TimeRegressed)
    else if !(record.payload.Some? && record.payload.value.Object?) then Err(NotAnObject)
    else
      var st := st.(previousMono := Some(record.receiveMonoNs));
      var fields := record.payload.value.fields;
      if IsShutdown(record.payload) then
        if AsU64(Get(fields, "E")).None? then Err(BadField)
        else if st.shutdownEvents == U64_MAX then Err(CountOverflow)
        else Ok(st.(shutdownEvents := st.shutdownEvents + 1))
      else if Get(fields, "e") != Text(if kind.Depth? then "depthUpdate" else "trade") then Err(BadIdentity)
      else if Get(fields, "s") != Text(symbol) then Err(BadIdentity)
      else if AsU64(Get(fields, "E")).None? then Err(BadField)
      else
        var observed := ObserveMarket(st, record.receiveMonoNs);
        if observed.Err? then observed
        else if kind.Depth? then ValidateDepth(observed.value, fields, snapshotSequence)
        else ValidateTrade(observed.value, fields)
  }

  function ValidateAll(st: Sequence, records: seq<RawRecord>, kind: StreamKind, symbol: string, snapshotSequence: nat)
    : Result<Sequence, SequenceError>
  {
    if records == [] then Ok(st)
    else
      var last := |records| - 1;
      var before := ValidateAll(st, records[..last], kind, symbol, snapshotSequence);
      if before.Err? then before
      else Validate(before.value, records[last], kind, symbol, snapshotSequence)
  }

  class SequenceState {
    var started: bool
    var first: Option<nat>
    var final: Option<nat>
    var previousMono: Option<nat>
    var lastMarketMono: nat
    var firstActiveMono: Option<nat>
    var lastActiveMono: Option<nat>
    var activeEnd: Option<nat>
    var shutdownEvents: nat

    ghost function View(): Sequence
      reads this
    {
      Sequence(started, first, final, previousMono, lastMarketMono, firstActiveMono, lastActiveMono,
               activeEnd, shutdownEvents)
    }

    constructor (activeEnd: Option<nat>)
      ensures View() == FRESH.(activeEnd := activeEnd)
    {
      started, first, final, previousMono := false, None, None, None;
      lastMarketMono, firstActiveMono, lastActiveMono := 0, None, None;
      this.activeEnd, shutdownEvents := activeEnd, 0;
    }

    /** An accepted record moves the object by `Validate`; the flag says it was a shutdown notice. */
    method ValidateApplicationPayload(record: RawRecord, kind: StreamKind, symbol: string, snapshotSequence: nat)
      returns (r: Result<bool, SequenceError>)
      modifies this
      ensures r.Ok? <==> Validate(old(View()), record, kind, symbol, snapshotSequence).Ok?
      ensures r.Ok? ==> Validate(old(View()), record, kind, symbol, snapshotSequence) == Ok(View())
      ensures r.Ok? ==> r.value == IsShutdown(record.payload)
    {
      if previousMono.Some? && record.receiveMonoNs < previousMono.value {
        return Err(TimeRegressed);
      }
      previousMono := Some(record.receiveMonoNs);
      if !(record.payload.Some? && record.payload.value.Object?) {
        return Err(NotAnObject);
      }
      var fields := record.payload.value.fields;
      if Get(fields, "e") == Text("serverShutdown") {
        if AsU64(Get(fields, "E")).None? {
          return Err(BadField);
        }
        if shutdownEvents == U64_MAX {
          return Err(CountOverflow);
        }
        shutdownEvents := shutdownEvents + 1;
        return Ok(true);
      }
      if Get(fields, "e") != Text(if kind.Depth? then "depthUpdate" else "trade") || Get(fields, "s") != Text(symbol) {
        return Err(BadIdentity);
      }
      if AsU64(Get(fields, "E")).None? {
        return Err(BadField);
      }
      var recent := ObserveMarketMessage(record.receiveMonoNs);
      if !recent {
        return Err(MarketGap);
      }
      if kind.Depth? {
        r := CoverDepth(fields, snapshotSequence);
      } else {
        r := AdvanceTrade(fields);
      }
    }

    method ObserveMarketMessage(mono: nat) returns (ok: bool)
      modifies this
      ensures ok <==> ObserveMarket(old(View()), mono).Ok?
      ensures ok ==> ObserveMarket(old(View()), mono) == Ok(View())
    {
      lastMarketMono := mono;
      if activeEnd.None? || mono > activeEnd.value {
        return true;
      }
      if lastActiveMono.Some? && mono - lastActiveMono.value > FRESHNESS_NS {
        return false;
      }
      if firstActiveMono.None? {
        firstActiveMono := Some(mono);
      }
      lastActiveMono := Some(mono);
      return true;
    }

    method CoverDepth(fields: map<string, Value>, snapshotSequence: nat) returns (r: Result<bool, SequenceError>)
      modifies this
      ensures r.Ok? <==> ValidateDepth(old(View()), fields, snapshotSequence).Ok?
      ensures r.Ok? ==> !r.value && ValidateDepth(old(View()), fields, snapshotSequence) == Ok(View())
    {
      var u, v := AsU64(Get(fields, "U")), AsU64(Get(fields, "u"));
      if u.None? || v.None? {
        return Err(BadField);
      }
      if u.value > v.value {
        return Err(InvertedRange);
      }
      if !LevelPairs(Get(fields, "b")) || !LevelPairs(Get(fields, "a")) {
        return Err(BadField);
      }
      if !started {
        if v.value <= snapshotSequence {
          return Ok(false);
        }
        if snapshotSequence == U64_MAX {
          return Err(SequenceOverflow);
        }
        if u.value > snapshotSequence + 1 || v.value < snapshotSequence + 1 {
          return Err(CannotBridge);
        }
        started, first, final := true, Some(u.value), Some(v.value);
        return Ok(false);
      }
      if final.None? || final.value == U64_MAX {
        return Err(SequenceOverflow);
      }
      if u.value > final.value + 1 || v.value < final.value + 1 {
        return Err(Discontinuity);
      }
      final := Some(v.value);
      return Ok(false);
    }

    method AdvanceTrade(fields: map<string, Value>) returns (r: Result<bool, SequenceError>)
      modifies this
      ensures r.Ok? <==> ValidateTrade(old(View()), fields).Ok?
      ensures r.Ok? ==> !r.value && ValidateTrade(old(View()), fields) == Ok(View())
    {
      var id := AsU64(Get(fields, "t"));
      if id.None? || AsU64(Get(fields, "T")).None? {
        return Err(BadField);
      }
      if !Get(fields, "p").Text? || !Get(fields, "q").Text? {
        return Err(BadField);
      }
      if !Get(fields, "m").Boolean? || !Get(fields, "M").Boolean? {
        return Err(BadField);
      }
      if final.Some? && id.value <= final.value {
        return Err(TradeRegressed);
      }
      if !started {
        started, first := true, Some(id.value);
      }
      final := Some(id.value);
      return Ok(false);
    }
  }

  // ----- agreement with the book -----

  /** The payloads the book sees: every record that is not a shutdown notice. */
  ghost function Updates(records: seq<RawRecord>): seq<Payload> {
    if records == [] then []
    else
      var last := |records| - 1;
      Updates(records[..last])
      + (if IsShutdown(records[last].payload) then [] else [records[last].payload])
  }

  ghost predicate Smooth(outcomes: seq<ApplyOutcome>) {
    forall i :: 0 <= i < |outcomes| ==> outcomes[i] in {Applied, Old}
  }

  /** The levels of the update are not all well-formed decimals. */
  ghost predicate BadLevels(payload: Payload, symbol: string) {
    var f := DepthFieldsOf(payload, symbol);
    f.Some? && (ParseLevels(f.value.bids).Err? || ParseLevels(f.value.asks).Err?)
  }

  /** What may happen to the next update once all earlier ones were applied or skipped as old. */
  ghost predicate Expected(before: seq<ApplyOutcome>, outcome: ApplyOutcome, payload: Payload, symbol: string) {
    && outcome != DepthGap
    && (outcome == Old ==> forall i :: 0 <= i < |before| ==> before[i] == Old)
    && (outcome == Rejected ==> BadLevels(payload, symbol))
  }

  /** Checker and book stand at the same position. */
  ghost predicate InStep(st: Sequence, b: Book, outcomes: seq<ApplyOutcome>, snapshotSequence: nat) {
    && b.state in {Syncing, Live}
    && (if st.started then st.final.Some? && b.lastUpdateId.Some? && b.lastUpdateId.value == st.final.value
        else
          && b.lastUpdateId == Some(snapshotSequence)
          && forall i :: 0 <= i < |outcomes| ==> outcomes[i] == Old)
  }

  lemma {:induction false} OneUpdate(st: Sequence, st': Sequence, record: RawRecord, b: Book, outcomes: seq<ApplyOutcome>, snapshotSequence: nat)
    requires Validate(st, record, Depth, b.symbol, snapshotSequence) == Ok(st')
    requires InStep(st, b, outcomes, snapshotSequence)
    ensures IsShutdown(record.payload) ==> InStep(st', b, outcomes, snapshotSequence)
    ensures !IsShutdown(record.payload) ==>
      var (b', outcome) := ApplyDepth(b, record.payload);
      && Expected(outcomes, outcome, record.payload, b.symbol)
      && (outcome in {Applied, Old} ==> InStep(st', b', outcomes + [outcome], snapshotSequence))
  {
    hide ParseLevels, Uncrossed;
    if !IsShutdown(record.payload) {
      var fields := record.payload.value.fields;
      assert DepthFieldsOf(record.payload, b.symbol).Some?;
    }
  }

  /**
    Two independent continuity checkers agree.  If the scanner accepts the records of a depth
    stream, then replaying its updates through a book that stands at the same snapshot never
    meets a gap, skips old updates only before the first applied one, and rejects an update
    only for malformed levels, as long as no earlier update has failed.
   */
  lemma {:induction false} CheckersAgree(st: Sequence, records: seq<RawRecord>, b: Book, snapshotSequence: nat)
    requires !st.started && b.state == Syncing && b.lastUpdateId == Some(snapshotSequence)
    requires ValidateAll(st, records, Depth, b.symbol, snapshotSequence).Ok?
    requires BookOk(b)
    ensures
      var (b', outcomes) := Replay(b, Updates(records));
      && AllExpected(outcomes, Updates(records), b.symbol)
      && (Smooth(outcomes) ==>
            InStep(ValidateAll(st, records, Depth, b.symbol, snapshotSequence).value, b', outcomes, snapshotSequence))
  {
    hide Validate, ApplyDepth, BookOk, Expected, Smooth, InStep;
    if records == [] {
      StartInStep(st, b, snapshotSequence);
    } else {
      var last := |records| - 1;
      var front := records[..last];
      var updates := Updates(front);
      CheckersAgree(st, front, b, snapshotSequence);
      ReplayKeepsBook(b, updates);
      var (mid, outcomes) := Replay(b, updates);
      var before := ValidateAll(st, front, Depth, b.symbol, snapshotSequence).value;
      var after := ValidateAll(st, records, Depth, b.symbol, snapshotSequence).value;
      var payload := records[last].payload;
      if IsShutdown(payload) {
        assert Updates(records) == updates;
        if Smooth(outcomes) {
          OneUpdate(before, after, records[last], mid, outcomes, snapshotSequence);
        }
      } else {
        var all := updates + [payload];
        assert Updates(records) == all && all[..|all| - 1] == updates;
        var (b', outcome) := ApplyDepth(mid, payload);
        var outcomes' := outcomes + [outcome];
        assert Replay(b, all) == (b', outcomes');
        if Smooth(outcomes) {
          OneUpdate(before, after, records[last], mid, outcomes, snapshotSequence);
        }
        ExpectedOneMore(outcomes, outcome, updates, payload, b.symbol);
        SmoothFront(outcomes, outcome);
      }
    }
  }

  lemma StartInStep(st: Sequence, b: Book, snapshotSequence: nat)
    requires !st.started && b.state == Syncing && b.lastUpdateId == Some(snapshotSequence)
    ensures InStep(st, b, [], snapshotSequence)
  {
  }

  /** Every update up to the first one that is neither applied nor old went as expected. */
  ghost predicate AllExpected(outcomes: seq<ApplyOutcome>, updates: seq<Payload>, symbol: string)
    requires |outcomes| == |updates|
  {
    forall i :: 0 <= i < |outcomes| && Smooth(outcomes[..i]) ==>
      Expected(outcomes[..i], outcomes[i], updates[i], symbol)
  }

  lemma ExpectedOneMore(outcomes: seq<ApplyOutcome>, outcome: ApplyOutcome, updates: seq<Payload>, payload: Payload, symbol: string)
    requires |outcomes| == |updates| && AllExpected(outcomes, updates, symbol)
    requires Smooth(outcomes) ==> Expected(outcomes, outcome, payload, symbol)
    ensures AllExpected(outcomes + [outcome], updates + [payload], symbol)
  {
    hide Expected, Smooth;
    var outcomes', all := outcomes + [outcome], updates + [payload];
    forall i | 0 <= i < |outcomes'| && Smooth(outcomes'[..i])
      ensures Expected(outcomes'[..i], outcomes'[i], all[i], symbol)
    {
      if i < |outcomes| {
        assert outcomes'[..i] == outcomes[..i];
      } else {
        assert outcomes'[..i] == outcomes;
      }
    }
  }

  lemma SmoothFront(outcomes: seq<ApplyOutcome>, outcome: ApplyOutcome)
    ensures Smooth(outcomes + [outcome]) ==> Smooth(outcomes) && outcome in {Applied, Old}
  {
    var outcomes' := outcomes + [outcome];
    assert forall i :: 0 <= i < |outcomes| ==> outcomes[i] == outcomes'[i];
    assert outcomes'[|outcomes|] == outcome;
  }
}
