/**
  Interval sweeps: local checks on a list of windows, and the coverage of every instant that
  they give.
 */
module Coverage {
  import opened Wrappers
  import opened Streams
  import opened Powers
  import opened DepthContinuity

  // ----- declared generation windows -----

  const SECOND_NS: nat := 1_000_000_000

  datatype GenerationWindow = GenerationWindow(startNs: nat, durationS: nat)
  {
    function EndNs(): nat { startNs + durationS * SECOND_NS }

    predicate Fits() {
      durationS <= U64_MAX / SECOND_NS && startNs <= U64_MAX - durationS * SECOND_NS
    }

    predicate Contains(t: int) { startNs <= t <= EndNs() }
  }

  /** The furthest instant covered by the windows swept so far. */
  ghost function CoveredThrough(ws: seq<GenerationWindow>): nat
    requires ws != []
  {
    var last := |ws| - 1;
    if last == 0 then ws[0].EndNs()
    else
      var before := CoveredThrough(ws[..last]);
      if before >= ws[last].EndNs() then before else ws[last].EndNs()
  }

  /** The window starts after the previous one and not after what is already covered. */
  ghost predicate Joins(ws: seq<GenerationWindow>, i: int)
    requires 0 < i < |ws|
  {
    ws[i - 1].startNs < ws[i].startNs <= CoveredThrough(ws[..i])
  }

  ghost predicate GenerationSweep(ws: seq<GenerationWindow>, requiredEnd: nat) {
    && ws != []
    && (forall i :: 0 <= i < |ws| ==> ws[i].Fits())
    && (forall i :: 0 < i < |ws| ==> Joins(ws, i))
    && requiredEnd <= CoveredThrough(ws)
  }

  method SweepGenerations(ws: seq<GenerationWindow>, requiredEnd: nat) returns (ok: bool)
    requires ws != []
    ensures ok == GenerationSweep(ws, requiredEnd)
  {
    if !ws[0].Fits() {
      return false;
    }
    var coveredThrough, previousStart := ws[0].EndNs(), ws[0].startNs;
    assert ws[..1] == [ws[0]];
    for i := 1 to |ws|
      invariant forall j :: 0 <= j < i ==> ws[j].Fits()
      invariant forall j :: 0 < j < i ==> Joins(ws, j)
      invariant coveredThrough == CoveredThrough(ws[..i])
      invariant previousStart == ws[i - 1].startNs
    {
      assert ws[..i + 1][..i] == ws[..i];
      if ws[i].startNs <= previousStart || ws[i].startNs > coveredThrough {
        assert !Joins(ws, i);
        return false;
      }
      if !ws[i].Fits() {
        return false;
      }
      if ws[i].EndNs() > coveredThrough {
        coveredThrough := ws[i].EndNs();
      }
      previousStart := ws[i].startNs;
    }
    assert ws[..|ws|] == ws;
    return coveredThrough >= requiredEnd;
  }

  ghost predicate SomeContains(ws: seq<GenerationWindow>, t: int) {
    exists i :: 0 <= i < |ws| && ws[i].Contains(t)
  }

  lemma {:induction false} SweptInstants(ws: seq<GenerationWindow>, t: int)
    requires ws != [] && forall i :: 0 < i < |ws| ==> Joins(ws, i)
    requires ws[0].startNs <= t <= CoveredThrough(ws)
    ensures SomeContains(ws, t)
  {
    var last := |ws| - 1;
    if last == 0 {
      assert ws[0].Contains(t);
    } else {
      var front := ws[..last];
      assert Joins(ws, last);
      if t <= CoveredThrough(front) {
        forall i | 0 < i < |front| ensures Joins(front, i) {
          assert Joins(ws, i) && front[..i] == ws[..i];
        }
        SweptInstants(front, t);
        var i :| 0 <= i < |front| && front[i].Contains(t);
        assert ws[i] == front[i];
      } else {
        assert ws[last].Contains(t);
      }
    }
  }

  /** Accepted generation windows cover every instant from the first start to the required end. */
  lemma {:induction false} GenerationsCoverCampaign(ws: seq<GenerationWindow>, requiredEnd: nat, t: int)
    requires GenerationSweep(ws, requiredEnd) && ws[0].startNs <= t <= requiredEnd
    ensures SomeContains(ws, t)
  {
    SweptInstants(ws, t);
  }

  /** Some window before position `i` lasts to the instant or beyond. */
  ghost predicate LastsTo(ws: seq<GenerationWindow>, i: nat, t: int)
    requires i <= |ws|
  {
    exists j :: 0 <= j < i && t <= ws[j].startNs + ws[j].durationS * 1_000_000_000
  }

  lemma {:induction false} CoveredThroughMeans(ws: seq<GenerationWindow>, i: nat, t: int)
    requires 0 < i <= |ws|
    ensures t <= CoveredThrough(ws[..i]) <==> LastsTo(ws, i, t)
  {
    if i == 1 {
      assert ws[..1] == [ws[0]];
    } else {
      CoveredThroughMeans(ws, i - 1, t);
      assert ws[..i][..i - 1] == ws[..i - 1];
    }
  }

  /** The window ends in 64 bits, starts after the one before it and is reached by some earlier one. */
  ghost predicate Continues(ws: seq<GenerationWindow>, i: nat)
    requires i < |ws|
  {
    && ws[i].startNs + ws[i].durationS * 1_000_000_000 <= U64_MAX
    && (i > 0 ==> ws[i - 1].startNs < ws[i].startNs && LastsTo(ws, i, ws[i].startNs))
  }

  /** The sweep accepts exactly the windows that continue one another up to the required end. */
  lemma {:induction false} GenerationSweepMeans(ws: seq<GenerationWindow>, requiredEnd: nat)
    ensures GenerationSweep(ws, requiredEnd) <==>
            ws != [] && (forall i :: 0 <= i < |ws| ==> Continues(ws, i)) && LastsTo(ws, |ws|, requiredEnd)
  {
    hide LastsTo, CoveredThrough;
    if ws != [] {
      assert ws[..|ws|] == ws;
      CoveredThroughMeans(ws, |ws|, requiredEnd);
      forall i | 0 <= i < |ws| ensures Continues(ws, i) <==> ws[i].Fits() && (i > 0 ==> Joins(ws, i)) {
        WindowContinues(ws, i);
      }
      if forall i :: 0 <= i < |ws| ==> Continues(ws, i) {
        forall i | 0 <= i < |ws| ensures ws[i].Fits() && (i > 0 ==> Joins(ws, i)) {
          assert Continues(ws, i);
        }
      }
    }
  }

  lemma WindowContinues(ws: seq<GenerationWindow>, i: nat)
    requires i < |ws|
    ensures Continues(ws, i) <==> ws[i].Fits() && (i > 0 ==> Joins(ws, i))
  {
    hide LastsTo, CoveredThrough;
    if i > 0 {
      CoveredThroughMeans(ws, i, ws[i].startNs);
    }
  }

  // ----- observer windows -----

  datatype ObserverWindow = ObserverWindow(started: nat, ready: nat, stop: nat, terminal: nat)

  ghost function ObservedUntil(ws: seq<ObserverWindow>, lower: nat): nat {
    if ws == [] then lower
    else
      var last := |ws| - 1;
      var before := ObservedUntil(ws[..last], lower);
      if before >= ws[last].stop then before else ws[last].stop
  }

  /** The interval checks of one window against its predecessors. */
  ghost predicate WindowOk(ws: seq<ObserverWindow>, lower: nat, i: int)
    requires 0 <= i < |ws|
  {
    && 0 < ws[i].started <= ws[i].ready < ws[i].stop <= ws[i].terminal
    && (i > 0 ==> ws[i - 1].ready < ws[i].ready)
    && ws[i].ready <= ObservedUntil(ws[..i], lower) && lower < ws[i].stop
    && (i >= 2 ==> ws[i - 2].stop <= ws[i].ready)
  }

  ghost predicate ObserverSweep(ws: seq<ObserverWindow>, lower: nat, upper: nat) {
    && lower < upper && ws != []
    && (forall i :: 0 <= i < |ws| ==> WindowOk(ws, lower, i))
    && upper <= ObservedUntil(ws, lower)
  }

  /** The interval loop of `_verify_observer_windows`. */
  method VerifyObserverWindows(ws: seq<ObserverWindow>, lower: nat, upper: nat) returns (ok: bool)
    ensures ok == ObserverSweep(ws, lower, upper)
  {
    if upper <= lower || ws == [] {
      return false;
    }
    var coveredUntil: nat, previousReady: int := lower, -1;
    var previousStops: seq<nat> := [];
    for i := 0 to |ws|
      invariant forall j :: 0 <= j < i ==> WindowOk(ws, lower, j)
      invariant coveredUntil == ObservedUntil(ws[..i], lower)
      invariant previousReady == if i == 0 then -1 else ws[i - 1].ready as int
      invariant |previousStops| == i && forall j :: 0 <= j < i ==> previousStops[j] == ws[j].stop
    {
      assert ws[..i + 1][..i] == ws[..i];
      var w := ws[i];
      if !(0 < w.started <= w.ready < w.stop <= w.terminal) || w.ready <= previousReady {
        assert !WindowOk(ws, lower, i);
        return false;
      }
      if w.ready > coveredUntil || w.stop <= lower {
        assert !WindowOk(ws, lower, i);
        return false;
      }
      if |previousStops| >= 2 && w.ready < previousStops[|previousStops| - 2] {
        assert !WindowOk(ws, lower, i);
        return false;
      }
      if w.stop > coveredUntil {
        coveredUntil := w.stop;
      }
      previousReady := w.ready;
      previousStops := previousStops + [w.stop];
    }
    assert ws[..|ws|] == ws;
    return coveredUntil >= upper;
  }

  ghost predicate Observes(w: ObserverWindow, t: int) {
    w.ready <= t < w.stop
  }

  ghost predicate ObservedAt(ws: seq<ObserverWindow>, t: int) {
    exists i :: 0 <= i < |ws| && Observes(ws[i], t)
  }

  lemma {:induction false} ObservedInstants(ws: seq<ObserverWindow>, lower: nat, t: int)
    requires forall i :: 0 <= i < |ws| ==> WindowOk(ws, lower, i)
    requires lower <= t < ObservedUntil(ws, lower)
    ensures ObservedAt(ws, t)
  {
    var last := |ws| - 1;
    var front := ws[..last];
    assert WindowOk(ws, lower, last);
    if t < ObservedUntil(front, lower) {
      forall i | 0 <= i < |front| ensures WindowOk(front, lower, i) {
        assert WindowOk(ws, lower, i) && front[..i] == ws[..i];
      }
      ObservedInstants(front, lower, t);
      var i :| 0 <= i < |front| && Observes(front[i], t);
      assert ws[i] == front[i];
    } else {
      assert Observes(ws[last], t);
    }
  }

  lemma {:induction false} OnlyNeighboursOverlap(ws: seq<ObserverWindow>, lower: nat, i: nat, k: nat)
    requires forall j :: 0 <= j < |ws| ==> WindowOk(ws, lower, j)
    requires i + 2 <= k < |ws|
    ensures ws[i].stop <= ws[k].ready
    decreases k
  {
    assert WindowOk(ws, lower, k);
    if i + 2 < k {
      OnlyNeighboursOverlap(ws, lower, i, k - 1);
    }
  }

  /**
    Accepted observer windows cover the whole required interval, and no three of them overlap at
    any instant, although a window is compared with the stop of the second one before it only
    and stops need not be ordered.
   */
  lemma {:induction false} ObserversCover(ws: seq<ObserverWindow>, lower: nat, upper: nat)
    requires ObserverSweep(ws, lower, upper)
    ensures forall t :: lower <= t < upper ==> ObservedAt(ws, t)
    ensures forall t, i, j, k :: 0 <= i < j < k < |ws| ==>
              !(Observes(ws[i], t) && Observes(ws[j], t) && Observes(ws[k], t))
  {
    hide WindowOk, ObservedAt;
    forall t | lower <= t < upper ensures ObservedAt(ws, t) {
      ObservedInstants(ws, lower, t);
    }
    forall t, i, j, k | 0 <= i < j < k < |ws|
      ensures !(Observes(ws[i], t) && Observes(ws[j], t) && Observes(ws[k], t))
    {
      OnlyNeighboursOverlap(ws, lower, i, k);
    }
  }

  /** The instant is not after the lower bound, or some window before `i` stops at it or later. */
  ghost predicate WatchedTo(ws: seq<ObserverWindow>, lower: nat, i: nat, t: nat)
    requires i <= |ws|
  {
    t <= lower || exists j :: 0 <= j < i && t <= ws[j].stop
  }

  lemma {:induction false} ObservedUntilMeans(ws: seq<ObserverWindow>, lower: nat, i: nat, t: nat)
    requires i <= |ws|
    ensures t <= ObservedUntil(ws[..i], lower) <==> WatchedTo(ws, lower, i, t)
  {
    if i > 0 {
      ObservedUntilMeans(ws, lower, i - 1, t);
      assert ws[..i][..i - 1] == ws[..i - 1];
    }
  }

  /** The window is ordered, useful, later than the one before, in reach and clear of the second before. */
  ghost predicate TakesOver(ws: seq<ObserverWindow>, lower: nat, i: nat)
    requires i < |ws|
  {
    && 1 <= ws[i].started <= ws[i].ready < ws[i].stop <= ws[i].terminal && ws[i].stop > lower
    && (i > 0 ==> ws[i].ready > ws[i - 1].ready)
    && (i > 1 ==> !(ws[i].ready < ws[i - 2].stop))
    && WatchedTo(ws, lower, i, ws[i].ready)
  }

  /** The observer check accepts exactly the windows that take over from one another up to the end. */
  lemma {:induction false} ObserverSweepMeans(ws: seq<ObserverWindow>, lower: nat, upper: nat)
    ensures ObserverSweep(ws, lower, upper) <==>
            lower < upper && (forall i :: 0 <= i < |ws| ==> TakesOver(ws, lower, i)) && WatchedTo(ws, lower, |ws|, upper)
  {
    hide ObservedUntil;
    assert ws[..|ws|] == ws;
    ObservedUntilMeans(ws, lower, |ws|, upper);
    forall i | 0 <= i < |ws| ensures TakesOver(ws, lower, i) <==> WindowOk(ws, lower, i) {
      ObservedUntilMeans(ws, lower, i, ws[i].ready);
    }
    if forall i :: 0 <= i < |ws| ==> TakesOver(ws, lower, i) {
      forall i | 0 <= i < |ws| ensures WindowOk(ws, lower, i) {
        assert TakesOver(ws, lower, i);
      }
    }
  }

  // ----- raw market freshness -----

  /** `_validate_raw_market_freshness`. */
  predicate FreshnessOk(st: Sequence, activeEnd: nat) {
    && st.firstActiveMono.Some? && st.lastActiveMono.Some?
    && st.firstActiveMono.value <= (if activeEnd < STARTUP_GRACE_NS then activeEnd else STARTUP_GRACE_NS)
    && activeEnd - st.lastActiveMono.value <= FRESHNESS_NS
  }

  /** A market message arrived at most 30 seconds before the instant. */
  ghost predicate FreshAt(records: seq<RawRecord>, t: int) {
    exists i :: 0 <= i < |records| && !IsShutdown(records[i].payload)
      && records[i].receiveMonoNs <= t <= records[i].receiveMonoNs + FRESHNESS_NS
  }

  lemma FreshAtMonotone(records: seq<RawRecord>, more: seq<RawRecord>, t: int)
    requires FreshAt(records, t)
    ensures FreshAt(records + more, t)
  {
    var i :| 0 <= i < |records| && !IsShutdown(records[i].payload)
      && records[i].receiveMonoNs <= t <= records[i].receiveMonoNs + FRESHNESS_NS;
    assert (records + more)[i] == records[i];
  }

  /** The marks of the state bound the active market messages and everything between is fresh. */
  ghost predicate MarksOk(st: Sequence, records: seq<RawRecord>) {
    && (st.firstActiveMono.Some? <==> st.lastActiveMono.Some?)
    && (st.lastActiveMono.Some? ==>
          && st.firstActiveMono.value <= st.lastActiveMono.value
          && st.previousMono.Some? && st.lastActiveMono.value <= st.previousMono.value
          && forall t :: st.firstActiveMono.value <= t <= st.lastActiveMono.value + FRESHNESS_NS ==>
               FreshAt(records, t))
  }

  lemma ValidateMarks(st: Sequence, record: RawRecord, kind: StreamKind, symbol: string, snapshotSequence: nat)
    requires Validate(st, record, kind, symbol, snapshotSequence).Ok?
    ensures
      var st' := Validate(st, record, kind, symbol, snapshotSequence).value;
      && st'.activeEnd == st.activeEnd
      && st'.previousMono == Some(record.receiveMonoNs)
      && (st.previousMono.Some? ==> st.previousMono.value <= record.receiveMonoNs)
      && (if !IsShutdown(record.payload) && st.activeEnd.Some? && record.receiveMonoNs <= st.activeEnd.value
          then
            && (st.lastActiveMono.Some? ==> record.receiveMonoNs - st.lastActiveMono.value <= FRESHNESS_NS)
            && st'.lastActiveMono == Some(record.receiveMonoNs)
            && st'.firstActiveMono ==
               (if st.firstActiveMono.None? then Some(record.receiveMonoNs) else st.firstActiveMono)
          else st'.lastActiveMono == st.lastActiveMono && st'.firstActiveMono == st.firstActiveMono)
  {
    hide LevelPairs;
  }

  lemma {:induction false} MarksAreKept(st: Sequence, records: seq<RawRecord>, kind: StreamKind, symbol: string, snapshotSequence: nat)
    requires ValidateAll(st, records, kind, symbol, snapshotSequence).Ok?
    requires st.firstActiveMono.None? && st.lastActiveMono.None?
    ensures
      var st' := ValidateAll(st, records, kind, symbol, snapshotSequence).value;
      MarksOk(st', records) && st'.activeEnd == st.activeEnd
  {
    hide Validate, FreshAt;
    if records != [] {
      var last := |records| - 1;
      var front := records[..last];
      MarksAreKept(st, front, kind, symbol, snapshotSequence);
      var before := ValidateAll(st, front, kind, symbol, snapshotSequence).value;
      var after := ValidateAll(st, records, kind, symbol, snapshotSequence).value;
      ValidateMarks(before, records[last], kind, symbol, snapshotSequence);
      assert records == front + [records[last]];
      if after.lastActiveMono.Some? {
        forall t | after.firstActiveMono.value <= t <= after.lastActiveMono.value + FRESHNESS_NS
          ensures FreshAt(records, t)
        {
          if before.lastActiveMono.Some? && t <= before.lastActiveMono.value + FRESHNESS_NS {
            FreshAtMonotone(front, [records[last]], t);
          } else {
            FreshAtLast(records, t);
          }
        }
      }
    }
  }

  lemma FreshAtLast(records: seq<RawRecord>, t: int)
    requires records != []
    requires var r := records[|records| - 1];
      !IsShutdown(r.payload) && r.receiveMonoNs <= t <= r.receiveMonoNs + FRESHNESS_NS
    ensures FreshAt(records, t)
  {
  }

  /**
    An accepted raw stream is fresh throughout: at every instant from its first active market
    message to the end of its active window, a market message arrived within the last 30 seconds.
   */
  lemma {:induction false} StreamIsFresh(records: seq<RawRecord>, kind: StreamKind, symbol: string, snapshotSequence: nat, activeEnd: nat, t: int)
    requires ValidateAll(FRESH.(activeEnd := Some(activeEnd)), records, kind, symbol, snapshotSequence).Ok?
    requires
      var st := ValidateAll(FRESH.(activeEnd := Some(activeEnd)), records, kind, symbol, snapshotSequence).value;
      FreshnessOk(st, activeEnd) && st.firstActiveMono.value <= t <= activeEnd
    ensures FreshAt(records, t)
  {
    hide ValidateAll, FreshAt;
    MarksAreKept(FRESH.(activeEnd := Some(activeEnd)), records, kind, symbol, snapshotSequence);
  }

  /** A market message of the stream. */
  predicate IsMarket(records: seq<RawRecord>, i: nat)
    requires i < |records|
  {
    !IsShutdown(records[i].payload)
  }

  ghost predicate MessageBy(records: seq<RawRecord>, t: int) {
    exists i :: 0 <= i < |records| && IsMarket(records, i) && records[i].receiveMonoNs <= t
  }

  ghost predicate MessageBetween(records: seq<RawRecord>, from: int, to: int) {
    exists i :: 0 <= i < |records| && IsMarket(records, i) && from <= records[i].receiveMonoNs <= to
  }

  /** The marks are the first and the last reading of a market message in the active window. */
  ghost predicate MarksMean(st: Sequence, records: seq<RawRecord>, activeEnd: nat) {
    && st.activeEnd == Some(activeEnd)
    && (forall i :: 0 <= i < |records| ==> st.previousMono.Some? && records[i].receiveMonoNs <= st.previousMono.value)
    && (st.firstActiveMono.Some? <==> st.lastActiveMono.Some?)
    && (st.lastActiveMono.Some? ==>
          MarkOf(records, st.firstActiveMono.value, activeEnd) && MarkOf(records, st.lastActiveMono.value, activeEnd))
    && (forall i :: 0 <= i < |records| && IsMarket(records, i) && records[i].receiveMonoNs <= activeEnd ==>
          st.lastActiveMono.Some? && st.firstActiveMono.value <= records[i].receiveMonoNs <= st.lastActiveMono.value)
  }

  ghost predicate MarkOf(records: seq<RawRecord>, mono: nat, activeEnd: nat) {
    mono <= activeEnd && exists i :: 0 <= i < |records| && IsMarket(records, i) && records[i].receiveMonoNs == mono
  }

  lemma MarkOfMore(records: seq<RawRecord>, more: seq<RawRecord>, mono: nat, activeEnd: nat)
    requires MarkOf(records, mono, activeEnd)
    ensures MarkOf(records + more, mono, activeEnd)
  {
    var i :| 0 <= i < |records| && IsMarket(records, i) && records[i].receiveMonoNs == mono;
    assert IsMarket(records + more, i);
  }

  lemma {:induction false} RunMarks(records: seq<RawRecord>, kind: StreamKind, symbol: string, snapshotSequence: nat, activeEnd: nat)
    requires ValidateAll(FRESH.(activeEnd := Some(activeEnd)), records, kind, symbol, snapshotSequence).Ok?
    ensures
      MarksMean(ValidateAll(FRESH.(activeEnd := Some(activeEnd)), records, kind, symbol, snapshotSequence).value, records, activeEnd)
  {
    hide Validate, MarkOf;
    if records != [] {
      var last := |records| - 1;
      var front, start := records[..last], FRESH.(activeEnd := Some(activeEnd));
      RunMarks(front, kind, symbol, snapshotSequence, activeEnd);
      var before := ValidateAll(start, front, kind, symbol, snapshotSequence).value;
      ValidateMarks(before, records[last], kind, symbol, snapshotSequence);
      assert records == front + [records[last]];
      if before.lastActiveMono.Some? {
        MarkOfMore(front, [records[last]], before.firstActiveMono.value, activeEnd);
        MarkOfMore(front, [records[last]], before.lastActiveMono.value, activeEnd);
      }
      if IsMarket(records, last) && records[last].receiveMonoNs <= activeEnd {
        LastIsMark(records, activeEnd);
      }
      forall i | 0 <= i < last && IsMarket(records, i) ensures IsMarket(front, i) {
      }
    }
  }

  lemma LastIsMark(records: seq<RawRecord>, activeEnd: nat)
    requires records != [] && IsMarket(records, |records| - 1) && records[|records| - 1].receiveMonoNs <= activeEnd
    ensures MarkOf(records, records[|records| - 1].receiveMonoNs, activeEnd)
  {
  }

  /**
    The freshness check passes a validated stream exactly when a market message came within the
    startup grace, and another within the 30 seconds before the end of the active window.
   */
  lemma {:induction false} FreshnessMeans(records: seq<RawRecord>, kind: StreamKind, symbol: string, snapshotSequence: nat, activeEnd: nat)
    requires ValidateAll(FRESH.(activeEnd := Some(activeEnd)), records, kind, symbol, snapshotSequence).Ok?
    ensures
      FreshnessOk(ValidateAll(FRESH.(activeEnd := Some(activeEnd)), records, kind, symbol, snapshotSequence).value, activeEnd)
      <==>
      && MessageBy(records, activeEnd) && MessageBy(records, 30_000_000_000)
      && MessageBetween(records, activeEnd - 30_000_000_000, activeEnd)
  {
    hide ValidateAll;
    RunMarks(records, kind, symbol, snapshotSequence, activeEnd);
    var st := ValidateAll(FRESH.(activeEnd := Some(activeEnd)), records, kind, symbol, snapshotSequence).value;
    MarksDecide(st, records, activeEnd);
  }

  lemma MarksDecide(st: Sequence, records: seq<RawRecord>, activeEnd: nat)
    requires MarksMean(st, records, activeEnd)
    ensures FreshnessOk(st, activeEnd) <==>
            && MessageBy(records, activeEnd) && MessageBy(records, 30_000_000_000)
            && MessageBetween(records, activeEnd - 30_000_000_000, activeEnd)
  {
    if FreshnessOk(st, activeEnd) {
      assert MarkOf(records, st.firstActiveMono.value, activeEnd) && MarkOf(records, st.lastActiveMono.value, activeEnd);
      var i :| 0 <= i < |records| && IsMarket(records, i) && records[i].receiveMonoNs == st.lastActiveMono.value;
      assert MessageBetween(records, activeEnd - 30_000_000_000, activeEnd);
    }
    if MessageBy(records, activeEnd) && MessageBy(records, 30_000_000_000)
       && MessageBetween(records, activeEnd - 30_000_000_000, activeEnd) {
      var i :| 0 <= i < |records| && IsMarket(records, i) && records[i].receiveMonoNs <= activeEnd;
      var j :| 0 <= j < |records| && IsMarket(records, j) && records[j].receiveMonoNs <= 30_000_000_000;
      assert st.firstActiveMono.value <= records[i].receiveMonoNs;
      assert records[j].receiveMonoNs <= activeEnd ==> st.firstActiveMono.value <= records[j].receiveMonoNs;
    }
  }
}
