/**
  When the segment scanner accepts a raw record of a stream, told from the earlier records alone.
 */
module SequenceHistory {
  import opened Wrappers
  import opened Streams
  import opened Powers
  import opened Json
  import opened DepthContinuity

  // ----- fields -----

  predicate Has(fields: map<string, Value>, key: string, v: Value) {
    key in fields && fields[key] == v
  }

  /** The field is an integer of 64 unsigned bits. */
  predicate HasU64(fields: map<string, Value>, key: string, n: int) {
    Has(fields, key, Integer(n)) && 0 <= n <= 0xffff_ffff_ffff_ffff
  }

  ghost predicate IsU64(fields: map<string, Value>, key: string) {
    key in fields && fields[key].Integer? && 0 <= fields[key].number <= 0xffff_ffff_ffff_ffff
  }

  predicate IsText(fields: map<string, Value>, key: string) {
    key in fields && fields[key].Text?
  }

  predicate IsFlag(fields: map<string, Value>, key: string) {
    key in fields && fields[key].Boolean?
  }

  predicate IsPair(v: Value) {
    v.Array? && |v.items| == 2 && v.items[0].Text? && v.items[1].Text?
  }

  ghost predicate HasPairs(fields: map<string, Value>, key: string) {
    key in fields && fields[key].Array? && forall v :: v in fields[key].items ==> IsPair(v)
  }

  // ----- records -----

  /** The record is an object that announces a shutdown. */
  predicate Announces(r: RawRecord) {
    r.payload.Some? && r.payload.value.Object? && Has(r.payload.value.fields, "e", Text("serverShutdown"))
  }

  ghost function Announcements(records: seq<RawRecord>): set<int> {
    set i | 0 <= i < |records| && Announces(records[i])
  }

  predicate IsMarket(records: seq<RawRecord>, i: int) {
    0 <= i < |records| && !Announces(records[i])
  }

  /** The record is a market message with this number in the field. */
  predicate Carries(records: seq<RawRecord>, i: int, key: string, n: int) {
    && IsMarket(records, i) && records[i].payload.Some? && records[i].payload.value.Object?
    && HasU64(records[i].payload.value.fields, key, n)
  }

  /** No later record is a market message. */
  ghost predicate IsLatest(records: seq<RawRecord>, i: int) {
    IsMarket(records, i) && forall j :: i < j < |records| ==> !IsMarket(records, j)
  }

  /**
    How far the stream has come: the last sequence of its latest update, or the snapshot while no
    update has passed it.
   */
  ghost predicate StandsAt(records: seq<RawRecord>, snapshotSequence: nat, n: int) {
    || (n == snapshotSequence
        && forall i, u :: IsLatest(records, i) && Carries(records, i, "u", u) ==> u <= snapshotSequence)
    || (n > snapshotSequence && exists i :: IsLatest(records, i) && Carries(records, i, "u", n))
  }

  // ----- what may arrive -----

  /** The gap since the latest market message is at most 30 seconds, when the record is active. */
  ghost predicate InFreshTime(activeEnd: Option<nat>, records: seq<RawRecord>, mono: nat) {
    activeEnd.Some? && mono <= activeEnd.value ==>
      || (forall i :: !IsMarket(records, i))
      || exists i :: IsMarket(records, i) && mono - records[i].receiveMonoNs <= 30_000_000_000
  }

  /** An update still before the snapshot, or one that covers the next sequence number. */
  ghost predicate MayUpdate(snapshotSequence: nat, fields: map<string, Value>, n: int) {
    && HasPairs(fields, "b") && HasPairs(fields, "a") && IsU64(fields, "U") && IsU64(fields, "u")
    && var first, final := fields["U"].number, fields["u"].number;
       first <= final && ((n == snapshotSequence && final <= n) || (first <= n + 1 <= final && n < 0xffff_ffff_ffff_ffff))
  }

  ghost predicate MayTrade(records: seq<RawRecord>, fields: map<string, Value>) {
    && IsU64(fields, "t") && IsU64(fields, "T") && IsText(fields, "p") && IsText(fields, "q")
    && IsFlag(fields, "m") && IsFlag(fields, "M")
    && forall i, t :: Carries(records, i, "t", t) ==> t < fields["t"].number
  }

  ghost predicate MayArrive(
    activeEnd: Option<nat>, kind: StreamKind, symbol: string, snapshotSequence: nat, records: seq<RawRecord>, r: RawRecord)
  {
    && (forall i :: 0 <= i < |records| ==> records[i].receiveMonoNs <= r.receiveMonoNs)
    && r.payload.Some? && r.payload.value.Object?
    && var fields := r.payload.value.fields;
       && IsU64(fields, "E")
       && if Announces(r) then |Announcements(records)| < 0xffff_ffff_ffff_ffff
          else
            && Has(fields, "s", Text(symbol)) && InFreshTime(activeEnd, records, r.receiveMonoNs)
            && match kind
               case Depth =>
                 && Has(fields, "e", Text("depthUpdate"))
                 && exists n :: StandsAt(records, snapshotSequence, n) && MayUpdate(snapshotSequence, fields, n)
               case Trade => Has(fields, "e", Text("trade")) && MayTrade(records, fields)
  }

  // ----- the state holds what arrived -----

  lemma AnnouncesMeans(r: RawRecord)
    ensures Announces(r) <==> IsShutdown(r.payload)
  {
  }

  /** The clock and the shutdown count. */
  ghost predicate ClockHeld(st: Sequence, records: seq<RawRecord>) {
    && (st.previousMono.Some? <==> records != [])
    && (forall i :: 0 <= i < |records| ==> records[i].receiveMonoNs <= st.previousMono.value)
    && (records != [] ==> st.previousMono.value == records[|records| - 1].receiveMonoNs)
    && st.shutdownEvents == |Announcements(records)| <= U64_MAX
  }

  /** The latest market reading in the active window. */
  ghost predicate ActiveHeld(st: Sequence, activeEnd: Option<nat>, records: seq<RawRecord>) {
    && st.activeEnd == activeEnd
    && (st.lastActiveMono.Some? ==>
          exists i :: IsMarket(records, i) && records[i].receiveMonoNs == st.lastActiveMono.value)
    && (activeEnd.Some? ==> forall i :: IsMarket(records, i) && records[i].receiveMonoNs <= activeEnd.value ==>
          st.lastActiveMono.Some? && records[i].receiveMonoNs <= st.lastActiveMono.value)
  }

  /** The position of the stream. */
  ghost predicate PositionHeld(st: Sequence, kind: StreamKind, snapshotSequence: nat, records: seq<RawRecord>) {
    match kind
    case Depth =>
      if st.started then
        && st.final.Some? && snapshotSequence < st.final.value
        && exists i :: IsLatest(records, i) && Carries(records, i, "u", st.final.value)
      else forall i, u :: Carries(records, i, "u", u) ==> u <= snapshotSequence
    case Trade =>
      && (st.final.Some? ==> exists i :: Carries(records, i, "t", st.final.value))
      && (forall i, t :: Carries(records, i, "t", t) ==> st.final.Some? && t <= st.final.value)
  }

  lemma AnnouncementsNext(records: seq<RawRecord>, r: RawRecord)
    ensures |Announcements(records + [r])| == |Announcements(records)| + if Announces(r) then 1 else 0
  {
    hide Announces;
    var front := Announcements(records);
    assert Announcements(records + [r]) == if Announces(r) then front + {|records|} else front;
  }

  lemma MarketNext(records: seq<RawRecord>, r: RawRecord, i: int, key: string, n: int)
    ensures IsMarket(records + [r], i) <==> IsMarket(records, i) || (i == |records| && !Announces(r))
    ensures
      Carries(records + [r], i, key, n) <==>
      || Carries(records, i, key, n)
      || (i == |records| && !Announces(r) && r.payload.Some? && r.payload.value.Object? && HasU64(r.payload.value.fields, key, n))
  {
    hide Announces;
  }

  lemma LatestNext(records: seq<RawRecord>, r: RawRecord, i: int)
    ensures IsLatest(records + [r], i) <==> if Announces(r) then IsLatest(records, i) else i == |records|
  {
    hide Announces;
    forall j ensures IsMarket(records + [r], j) <==> IsMarket(records, j) || (j == |records| && !Announces(r)) {
      MarketNext(records, r, j, "", 0);
    }
    if Announces(r) && IsLatest(records, i) {
      assert forall j :: i < j < |records| + 1 ==> !IsMarket(records + [r], j);
    }
    if IsLatest(records + [r], i) {
      if Announces(r) {
        assert forall j :: i < j < |records| ==> !IsMarket(records + [r], j);
      } else {
        assert IsMarket(records + [r], |records|);
      }
    }
  }

  lemma ClockStep(st: Sequence, records: seq<RawRecord>, r: RawRecord, kind: StreamKind, symbol: string, snapshotSequence: nat)
    requires ClockHeld(st, records) && Validate(st, r, kind, symbol, snapshotSequence).Ok?
    ensures ClockHeld(Validate(st, r, kind, symbol, snapshotSequence).value, records + [r])
  {
    hide LevelPairs, Announcements, Announces;
    AnnouncementsNext(records, r);
    AnnouncesMeans(r);
  }

  lemma ActiveStep(st: Sequence, activeEnd: Option<nat>, records: seq<RawRecord>, r: RawRecord, kind: StreamKind, symbol: string, snapshotSequence: nat)
    requires ClockHeld(st, records) && ActiveHeld(st, activeEnd, records) && Validate(st, r, kind, symbol, snapshotSequence).Ok?
    ensures ActiveHeld(Validate(st, r, kind, symbol, snapshotSequence).value, activeEnd, records + [r])
  {
    hide LevelPairs, Announcements, Announces, Validate, IsMarket;
    MovesActive(st, r, kind, symbol, snapshotSequence);
    AnnouncesMeans(r);
    var all := records + [r];
    forall i ensures IsMarket(all, i) <==> IsMarket(records, i) || (i == |records| && !Announces(r)) {
      MarketNext(records, r, i, "", 0);
    }
    MarketIndex(records);
    MarketIndex(all);
    assert all[|records|] == r;
    if st.lastActiveMono.Some? {
      var i :| IsMarket(records, i) && records[i].receiveMonoNs == st.lastActiveMono.value;
      assert IsMarket(all, i) && all[i] == records[i];
    }
    assert !Announces(r) ==> IsMarket(all, |records|);
  }

  lemma MarketIndex(records: seq<RawRecord>)
    ensures forall i :: IsMarket(records, i) ==> 0 <= i < |records|
  {
  }

  lemma MovesActive(st: Sequence, r: RawRecord, kind: StreamKind, symbol: string, snapshotSequence: nat)
    requires Validate(st, r, kind, symbol, snapshotSequence).Ok?
    ensures
      var st' := Validate(st, r, kind, symbol, snapshotSequence).value;
      && st'.activeEnd == st.activeEnd && (st.previousMono.Some? ==> st.previousMono.value <= r.receiveMonoNs)
      && st'.lastActiveMono ==
         if !IsShutdown(r.payload) && st.activeEnd.Some? && r.receiveMonoNs <= st.activeEnd.value
         then Some(r.receiveMonoNs) else st.lastActiveMono
  {
    hide LevelPairs, IsShutdown;
  }

  lemma PositionStep(st: Sequence, records: seq<RawRecord>, r: RawRecord, kind: StreamKind, symbol: string, snapshotSequence: nat)
    requires PositionHeld(st, kind, snapshotSequence, records) && Validate(st, r, kind, symbol, snapshotSequence).Ok?
    ensures PositionHeld(Validate(st, r, kind, symbol, snapshotSequence).value, kind, snapshotSequence, records + [r])
  {
    hide Announces, Validate, IsMarket, Carries, IsLatest;
    MovesPosition(st, r, kind, symbol, snapshotSequence);
    AnnouncesMeans(r);
    var all := records + [r];
    forall i, key, n
      ensures
        Carries(all, i, key, n) <==>
        || Carries(records, i, key, n)
        || (i == |records| && !Announces(r) && r.payload.Some? && r.payload.value.Object? && HasU64(r.payload.value.fields, key, n))
    {
      MarketNext(records, r, i, key, n);
    }
    forall i ensures IsLatest(all, i) <==> if Announces(r) then IsLatest(records, i) else i == |records| {
      LatestNext(records, r, i);
    }
    var key := if kind.Depth? then "u" else "t";
    if !Announces(r) {
      var n := r.payload.value.fields[key].number;
      assert Carries(all, |records|, key, n) && IsLatest(all, |records|);
    }
  }

  /** What an accepted record does to the position. */
  lemma MovesPosition(st: Sequence, r: RawRecord, kind: StreamKind, symbol: string, snapshotSequence: nat)
    requires Validate(st, r, kind, symbol, snapshotSequence).Ok?
    ensures
      var st' := Validate(st, r, kind, symbol, snapshotSequence).value;
      var key := if kind.Depth? then "u" else "t";
      if IsShutdown(r.payload) then st'.started == st.started && st'.final == st.final
      else
        && r.payload.Some? && r.payload.value.Object? && IsU64(r.payload.value.fields, key)
        && var n := r.payload.value.fields[key].number;
           if kind.Depth? && !st.started && n <= snapshotSequence then st'.started == st.started && st'.final == st.final
           else
             && st'.started && st'.final == Some(n)
             && (kind.Depth? && !st.started ==> snapshotSequence < n)
             && ((kind.Trade? || st.started) && st.final.Some? ==> st.final.value < n)
  {
    hide LevelPairs, IsShutdown, ObserveMarket;
    if !IsShutdown(r.payload) {
      assert r.payload.Some? && r.payload.value.Object?;
      var moved := st.(previousMono := Some(r.receiveMonoNs));
      ObserveKeepsPosition(moved, r.receiveMonoNs);
    }
  }

  lemma ObserveKeepsPosition(st: Sequence, mono: nat)
    ensures
      var next := ObserveMarket(st, mono);
      next.Ok? ==> next.value.started == st.started && next.value.final == st.final && next.value.first == st.first
  {
  }

  ghost predicate Held(st: Sequence, activeEnd: Option<nat>, kind: StreamKind, snapshotSequence: nat, records: seq<RawRecord>) {
    ClockHeld(st, records) && ActiveHeld(st, activeEnd, records) && PositionHeld(st, kind, snapshotSequence, records)
  }

  // ----- each record is accepted exactly when it may arrive -----

  lemma FreshExactly(st: Sequence, activeEnd: Option<nat>, records: seq<RawRecord>, mono: nat)
    requires ClockHeld(st, records) && ActiveHeld(st, activeEnd, records)
    requires forall i :: 0 <= i < |records| ==> records[i].receiveMonoNs <= mono
    ensures ObserveMarket(st, mono).Ok? <==> InFreshTime(activeEnd, records, mono)
  {
    hide Announcements, Announces;
    if activeEnd.Some? && mono <= activeEnd.value && st.lastActiveMono.Some? {
      var i :| IsMarket(records, i) && records[i].receiveMonoNs == st.lastActiveMono.value;
      if mono - st.lastActiveMono.value <= FRESHNESS_NS {
        assert InFreshTime(activeEnd, records, mono);
      }
    }
  }

  lemma StandsExactly(st: Sequence, records: seq<RawRecord>, snapshotSequence: nat, n: int)
    requires PositionHeld(st, Depth, snapshotSequence, records)
    ensures StandsAt(records, snapshotSequence, n) <==> n == if st.started then st.final.value else snapshotSequence
  {
    hide Carries;
    if st.started {
      var i :| IsLatest(records, i) && Carries(records, i, "u", st.final.value);
      if StandsAt(records, snapshotSequence, n) {
        if n > snapshotSequence {
          var j :| IsLatest(records, j) && Carries(records, j, "u", n);
          assert !(i < j) && !(j < i);
          OneNumber(records, i, "u", n, st.final.value);
        }
      }
    }
  }

  lemma OneNumber(records: seq<RawRecord>, i: int, key: string, m: int, n: int)
    requires Carries(records, i, key, m) && Carries(records, i, key, n)
    ensures m == n
  {
  }

  lemma UpdateExactly(st: Sequence, records: seq<RawRecord>, snapshotSequence: nat, fields: map<string, Value>)
    requires PositionHeld(st, Depth, snapshotSequence, records)
    ensures
      ValidateDepth(st, fields, snapshotSequence).Ok? <==>
      exists n :: StandsAt(records, snapshotSequence, n) && MayUpdate(snapshotSequence, fields, n)
  {
    hide StandsAt, LevelPairs, HasPairs, PositionHeld, IsLatest, Carries;
    forall n ensures StandsAt(records, snapshotSequence, n) <==> n == if st.started then st.final.GetOr(0) else snapshotSequence {
      StandsExactly(st, records, snapshotSequence, n);
      StartedStands(st, records, snapshotSequence);
    }
    StartedStands(st, records, snapshotSequence);
    PairsExactly(fields, "b");
    PairsExactly(fields, "a");
    var n := if st.started then st.final.value else snapshotSequence;
    assert StandsAt(records, snapshotSequence, n);
    assert ValidateDepth(st, fields, snapshotSequence).Ok? <==> MayUpdate(snapshotSequence, fields, n);
  }

  lemma StartedStands(st: Sequence, records: seq<RawRecord>, snapshotSequence: nat)
    requires PositionHeld(st, Depth, snapshotSequence, records)
    ensures st.started ==> st.final.Some? && snapshotSequence < st.final.value <= U64_MAX
  {
  }

  lemma PairsExactly(fields: map<string, Value>, key: string)
    ensures LevelPairs(Get(fields, key)) <==> HasPairs(fields, key)
  {
    if HasPairs(fields, key) {
      var items := fields[key].items;
      forall i | 0 <= i < |items| ensures IsPair(items[i]) {
        assert items[i] in items;
      }
    }
  }

  lemma TradeExactly(st: Sequence, records: seq<RawRecord>, snapshotSequence: nat, fields: map<string, Value>)
    requires PositionHeld(st, Trade, snapshotSequence, records)
    ensures ValidateTrade(st, fields).Ok? <==> MayTrade(records, fields)
  {
    hide Carries, ValidateTrade;
    TradeFields(st, fields);
    if st.final.Some? {
      var i :| Carries(records, i, "t", st.final.value);
      assert MayTrade(records, fields) ==> st.final.value < fields["t"].number;
    }
  }

  lemma TradeFields(st: Sequence, fields: map<string, Value>)
    ensures
      ValidateTrade(st, fields).Ok? <==>
      && IsU64(fields, "t") && IsU64(fields, "T") && IsText(fields, "p") && IsText(fields, "q")
      && IsFlag(fields, "m") && IsFlag(fields, "M") && (st.final.Some? ==> st.final.value < fields["t"].number)
  {
  }

  lemma {:induction false} ArrivesExactly(
    st: Sequence, activeEnd: Option<nat>, records: seq<RawRecord>, r: RawRecord, kind: StreamKind, symbol: string, snapshotSequence: nat)
    requires Held(st, activeEnd, kind, snapshotSequence, records)
    ensures Validate(st, r, kind, symbol, snapshotSequence).Ok? <==> MayArrive(activeEnd, kind, symbol, snapshotSequence, records, r)
  {
    hide ActiveHeld, PositionHeld, Announcements, Announces, ObserveMarket, ValidateDepth, ValidateTrade, InFreshTime, StandsAt;
    hide MayUpdate, MayTrade;
    AnnouncesMeans(r);
    ClockExactly(st, records, r.receiveMonoNs);
    if (forall i :: 0 <= i < |records| ==> records[i].receiveMonoNs <= r.receiveMonoNs) && r.payload.Some? && r.payload.value.Object? {
      var fields := r.payload.value.fields;
      var at := st.(previousMono := Some(r.receiveMonoNs));
      FreshSame(st, at, activeEnd, records, r.receiveMonoNs);
      if ObserveMarket(at, r.receiveMonoNs).Ok? {
        var seen := ObserveMarket(at, r.receiveMonoNs).value;
        ObserveKeepsPosition(at, r.receiveMonoNs);
        SamePosition(st, seen, kind, snapshotSequence, records);
        if kind.Depth? {
          UpdateExactly(seen, records, snapshotSequence, fields);
        } else {
          TradeExactly(seen, records, snapshotSequence, fields);
        }
      }
    }
  }

  lemma ClockExactly(st: Sequence, records: seq<RawRecord>, mono: nat)
    requires ClockHeld(st, records)
    ensures (st.previousMono.Some? && mono < st.previousMono.value) <==> !(forall i :: 0 <= i < |records| ==> records[i].receiveMonoNs <= mono)
  {
    hide Announcements;
  }

  lemma FreshSame(st: Sequence, at: Sequence, activeEnd: Option<nat>, records: seq<RawRecord>, mono: nat)
    requires ClockHeld(st, records) && ActiveHeld(st, activeEnd, records) && at == st.(previousMono := Some(mono))
    requires forall i :: 0 <= i < |records| ==> records[i].receiveMonoNs <= mono
    ensures ObserveMarket(at, mono).Ok? <==> InFreshTime(activeEnd, records, mono)
  {
    hide ClockHeld, ActiveHeld, InFreshTime;
    FreshExactly(st, activeEnd, records, mono);
  }

  lemma SamePosition(st: Sequence, seen: Sequence, kind: StreamKind, snapshotSequence: nat, records: seq<RawRecord>)
    requires PositionHeld(st, kind, snapshotSequence, records) && seen.started == st.started && seen.final == st.final
    ensures PositionHeld(seen, kind, snapshotSequence, records)
  {
    hide Carries, IsLatest;
  }

  /** The scanner's state after a stream that it accepts. */
  lemma {:induction false} RunHolds(activeEnd: Option<nat>, records: seq<RawRecord>, kind: StreamKind, symbol: string, snapshotSequence: nat)
    requires ValidateAll(FRESH.(activeEnd := activeEnd), records, kind, symbol, snapshotSequence).Ok?
    ensures Held(ValidateAll(FRESH.(activeEnd := activeEnd), records, kind, symbol, snapshotSequence).value,
                 activeEnd, kind, snapshotSequence, records)
  {
    hide Validate, ClockHeld, ActiveHeld, PositionHeld;
    if records == [] {
      FreshHolds(activeEnd, kind, snapshotSequence);
    } else {
      var last := |records| - 1;
      var front := records[..last];
      RunHolds(activeEnd, front, kind, symbol, snapshotSequence);
      var st := ValidateAll(FRESH.(activeEnd := activeEnd), front, kind, symbol, snapshotSequence).value;
      assert front + [records[last]] == records;
      ClockStep(st, front, records[last], kind, symbol, snapshotSequence);
      ActiveStep(st, activeEnd, front, records[last], kind, symbol, snapshotSequence);
      PositionStep(st, front, records[last], kind, symbol, snapshotSequence);
    }
  }

  lemma FreshHolds(activeEnd: Option<nat>, kind: StreamKind, snapshotSequence: nat)
    ensures Held(FRESH.(activeEnd := activeEnd), activeEnd, kind, snapshotSequence, [])
  {
    assert Announcements([]) == {};
  }

  /** The scanner accepts a stream exactly when each record may arrive after the ones before it. */
  lemma {:induction false} StreamIsAcceptedExactly(activeEnd: Option<nat>, records: seq<RawRecord>, kind: StreamKind, symbol: string, snapshotSequence: nat)
    ensures
      ValidateAll(FRESH.(activeEnd := activeEnd), records, kind, symbol, snapshotSequence).Ok? <==>
      forall i :: 0 <= i < |records| ==> MayArrive(activeEnd, kind, symbol, snapshotSequence, records[..i], records[i])
  {
    hide Validate, Held, MayArrive;
    if records != [] {
      var last := |records| - 1;
      var front, start := records[..last], FRESH.(activeEnd := activeEnd);
      StreamIsAcceptedExactly(activeEnd, front, kind, symbol, snapshotSequence);
      forall i | 0 <= i < last
        ensures MayArrive(activeEnd, kind, symbol, snapshotSequence, front[..i], front[i]) ==
                MayArrive(activeEnd, kind, symbol, snapshotSequence, records[..i], records[i])
      {
        assert front[..i] == records[..i];
      }
      if ValidateAll(start, front, kind, symbol, snapshotSequence).Ok? {
        RunHolds(activeEnd, front, kind, symbol, snapshotSequence);
        ArrivesExactly(ValidateAll(start, front, kind, symbol, snapshotSequence).value, activeEnd, front, records[last],
                       kind, symbol, snapshotSequence);
      }
      if forall i :: 0 <= i < |records| ==> MayArrive(activeEnd, kind, symbol, snapshotSequence, records[..i], records[i]) {
        forall i | 0 <= i < last ensures MayArrive(activeEnd, kind, symbol, snapshotSequence, front[..i], front[i]) {
          assert MayArrive(activeEnd, kind, symbol, snapshotSequence, records[..i], records[i]);
        }
      }
    }
  }

  /** The trades of an accepted stream strictly increase. */
  lemma {:induction false} TradesIncrease(
    activeEnd: Option<nat>, records: seq<RawRecord>, symbol: string, snapshotSequence: nat, i: nat, j: nat)
    requires ValidateAll(FRESH.(activeEnd := activeEnd), records, Trade, symbol, snapshotSequence).Ok?
    requires i < j < |records| && IsMarket(records, i) && IsMarket(records, j)
    ensures exists s, t :: Carries(records, i, "t", s) && Carries(records, j, "t", t) && s < t
  {
    hide ValidateAll;
    StreamIsAcceptedExactly(activeEnd, records, Trade, symbol, snapshotSequence);
    assert MayArrive(activeEnd, Trade, symbol, snapshotSequence, records[..i], records[i]);
    assert MayArrive(activeEnd, Trade, symbol, snapshotSequence, records[..j], records[j]);
    var s, t := records[i].payload.value.fields["t"].number, records[j].payload.value.fields["t"].number;
    assert Carries(records[..j], i, "t", s);
    assert Carries(records, i, "t", s) && Carries(records, j, "t", t);
  }

  // ----- the marks that the scanner reports -----

  /** The first update past the snapshot. */
  ghost predicate IsBridge(records: seq<RawRecord>, snapshotSequence: nat, i: int) {
    && (exists u :: Carries(records, i, "u", u) && snapshotSequence < u)
    && forall j, u :: j < i && Carries(records, j, "u", u) ==> u <= snapshotSequence
  }

  ghost predicate IsEarliest(records: seq<RawRecord>, i: int) {
    IsMarket(records, i) && forall j :: 0 <= j < i ==> !IsMarket(records, j)
  }

  /** `first` is where the first update past the snapshot starts, or the first trade. */
  ghost predicate FirstHeld(st: Sequence, kind: StreamKind, snapshotSequence: nat, records: seq<RawRecord>) {
    && (st.started <==> st.first.Some?)
    && (st.started ==>
          match kind
          case Depth => exists i :: IsBridge(records, snapshotSequence, i) && Carries(records, i, "U", st.first.value)
          case Trade => exists i :: IsEarliest(records, i) && Carries(records, i, "t", st.first.value))
    && (!st.started && kind.Trade? ==> forall i :: !IsMarket(records, i))
  }

  /** What an accepted record does to `first` and the latest market reading. */
  lemma MovesFirst(st: Sequence, r: RawRecord, kind: StreamKind, symbol: string, snapshotSequence: nat)
    requires Validate(st, r, kind, symbol, snapshotSequence).Ok?
    ensures
      var st' := Validate(st, r, kind, symbol, snapshotSequence).value;
      if IsShutdown(r.payload) then
        st'.first == st.first && st'.started == st.started && st'.lastMarketMono == st.lastMarketMono
      else
        && st'.lastMarketMono == r.receiveMonoNs
        && r.payload.Some? && r.payload.value.Object?
        && var fields, key := r.payload.value.fields, if kind.Depth? then "U" else "t";
           && IsU64(fields, key)
           && st'.first == (if !st.started && st'.started then Some(fields[key].number) else st.first)
           && (st.started ==> st'.started) && (kind.Trade? ==> st'.started)
  {
    hide LevelPairs, IsShutdown;
  }

  lemma FirstStep(st: Sequence, records: seq<RawRecord>, r: RawRecord, kind: StreamKind, symbol: string, snapshotSequence: nat)
    requires FirstHeld(st, kind, snapshotSequence, records) && PositionHeld(st, kind, snapshotSequence, records)
    requires Validate(st, r, kind, symbol, snapshotSequence).Ok?
    ensures FirstHeld(Validate(st, r, kind, symbol, snapshotSequence).value, kind, snapshotSequence, records + [r])
  {
    hide Announces, Validate, IsMarket, Carries, IsLatest, IsBridge, IsEarliest;
    MovesPosition(st, r, kind, symbol, snapshotSequence);
    MovesFirst(st, r, kind, symbol, snapshotSequence);
    AnnouncesMeans(r);
    var st', all := Validate(st, r, kind, symbol, snapshotSequence).value, records + [r];
    if st.started && kind.Depth? {
      var i :| IsBridge(records, snapshotSequence, i) && Carries(records, i, "U", st.first.value);
      BridgeStays(records, r, snapshotSequence, i);
      MarketNext(records, r, i, "U", st.first.value);
    } else if st.started {
      var i :| IsEarliest(records, i) && Carries(records, i, "t", st.first.value);
      EarliestStays(records, r, i);
      MarketNext(records, r, i, "t", st.first.value);
    } else if st'.started && kind.Depth? {
      BridgeIsNew(records, r, snapshotSequence);
      MarketNext(records, r, |records|, "U", st'.first.value);
    } else if st'.started {
      EarliestIsNew(records, r);
      MarketNext(records, r, |records|, "t", st'.first.value);
    } else {
      forall i ensures IsMarket(all, i) ==> IsMarket(records, i) || !Announces(r) {
        MarketNext(records, r, i, "", 0);
      }
    }
  }

  lemma BridgeStays(records: seq<RawRecord>, r: RawRecord, snapshotSequence: nat, i: int)
    requires IsBridge(records, snapshotSequence, i)
    ensures IsBridge(records + [r], snapshotSequence, i)
  {
    var u :| Carries(records, i, "u", u) && snapshotSequence < u;
    assert Carries(records + [r], i, "u", u);
    forall j, u | j < i && Carries(records + [r], j, "u", u) ensures u <= snapshotSequence {
      assert Carries(records, j, "u", u);
    }
  }

  lemma BridgeIsNew(records: seq<RawRecord>, r: RawRecord, snapshotSequence: nat)
    requires forall i, u :: Carries(records, i, "u", u) ==> u <= snapshotSequence
    requires !Announces(r) && r.payload.Some? && r.payload.value.Object? && IsU64(r.payload.value.fields, "u")
    requires snapshotSequence < r.payload.value.fields["u"].number
    ensures IsBridge(records + [r], snapshotSequence, |records|)
  {
    assert Carries(records + [r], |records|, "u", r.payload.value.fields["u"].number);
    forall j, u | j < |records| && Carries(records + [r], j, "u", u) ensures u <= snapshotSequence {
      assert Carries(records, j, "u", u);
    }
  }

  lemma EarliestStays(records: seq<RawRecord>, r: RawRecord, i: int)
    requires IsEarliest(records, i)
    ensures IsEarliest(records + [r], i)
  {
    forall j | 0 <= j < i ensures !IsMarket(records + [r], j) {
      assert !IsMarket(records, j);
    }
  }

  lemma EarliestIsNew(records: seq<RawRecord>, r: RawRecord)
    requires (forall i :: !IsMarket(records, i)) && !Announces(r)
    ensures IsEarliest(records + [r], |records|)
  {
    forall j | 0 <= j < |records| ensures !IsMarket(records + [r], j) {
      assert !IsMarket(records, j);
    }
  }

  ghost predicate LastMarketHeld(st: Sequence, records: seq<RawRecord>) {
    && (forall i :: IsLatest(records, i) ==> st.lastMarketMono == records[i].receiveMonoNs)
    && ((forall i :: !IsMarket(records, i)) ==> st.lastMarketMono == 0)
  }

  lemma LastMarketStep(st: Sequence, records: seq<RawRecord>, r: RawRecord, kind: StreamKind, symbol: string, snapshotSequence: nat)
    requires LastMarketHeld(st, records) && Validate(st, r, kind, symbol, snapshotSequence).Ok?
    ensures LastMarketHeld(Validate(st, r, kind, symbol, snapshotSequence).value, records + [r])
  {
    hide Announces, Validate, IsMarket;
    MovesFirst(st, r, kind, symbol, snapshotSequence);
    AnnouncesMeans(r);
    var all := records + [r];
    MarketIndex(records);
    forall i ensures IsLatest(all, i) <==> if Announces(r) then IsLatest(records, i) else i == |records| {
      LatestNext(records, r, i);
    }
    if forall i :: !IsMarket(all, i) {
      forall i ensures !IsMarket(records, i) {
        MarketNext(records, r, i, "", 0);
      }
      MarketNext(records, r, |records|, "", 0);
      assert !IsMarket(all, |records|);
    }
  }

  /**
    What the scanner reports of an accepted stream: where it first passed the snapshot and where it
    stands, the latest market reading and the number of shutdown notices.
   */
  lemma {:induction false} ReportMeans(activeEnd: Option<nat>, records: seq<RawRecord>, kind: StreamKind, symbol: string, snapshotSequence: nat)
    requires ValidateAll(FRESH.(activeEnd := activeEnd), records, kind, symbol, snapshotSequence).Ok?
    ensures
      var st := ValidateAll(FRESH.(activeEnd := activeEnd), records, kind, symbol, snapshotSequence).value;
      && FirstHeld(st, kind, snapshotSequence, records) && PositionHeld(st, kind, snapshotSequence, records)
      && LastMarketHeld(st, records) && st.shutdownEvents == |Announcements(records)|
  {
    hide Validate, FirstHeld, PositionHeld, LastMarketHeld;
    RunHolds(activeEnd, records, kind, symbol, snapshotSequence);
    if records == [] {
      FreshReport(activeEnd, kind, snapshotSequence);
    } else {
      var last := |records| - 1;
      var front := records[..last];
      ReportMeans(activeEnd, front, kind, symbol, snapshotSequence);
      var st := ValidateAll(FRESH.(activeEnd := activeEnd), front, kind, symbol, snapshotSequence).value;
      assert front + [records[last]] == records;
      FirstStep(st, front, records[last], kind, symbol, snapshotSequence);
      LastMarketStep(st, front, records[last], kind, symbol, snapshotSequence);
    }
  }

  lemma FreshReport(activeEnd: Option<nat>, kind: StreamKind, snapshotSequence: nat)
    ensures FirstHeld(FRESH.(activeEnd := activeEnd), kind, snapshotSequence, []) && LastMarketHeld(FRESH.(activeEnd := activeEnd), [])
  {
  }
}
