/**
  The offline verdict on the trades of an accepted journal set, told from its payloads and the raw
  capture alone.
 */
module OfflineTrades {
  import opened Wrappers
  import opened ArbitrationAudit
  import opened ArbitrationRuns
  import opened ArbitrationCanonical
  import opened ArbitrationTrades
  import opened ArbitrationHistory
  import opened CanonicalMeaning

  // ----- evidence -----

  predicate NamesTrade(p: Payload) {
    p.TradeObservation? || p.TradeCorrection?
  }

  /** All raw evidence of the trade has the digest, and some of it is the record. */
  ghost predicate BackedBy(raw: RawUnion, id: int, observation: Digest, record: Digest) {
    && id in raw
    && (forall e :: e in raw[id] ==> e.observation == observation)
    && exists e :: e in raw[id] && e.record == record
  }

  /** The raw capture backs the trade that the payload names. */
  ghost predicate RawBacks(raw: RawUnion, p: Payload)
    requires NamesTrade(p)
  {
    p.id.Some? && p.observation.Some? && p.record.Some? && BackedBy(raw, p.id.value, p.observation.value, p.record.value)
  }

  lemma {:induction false} UnbackedMeans(raw: RawUnion, item: TradeItem)
    ensures Unbacked(raw, item).None? <==> BackedBy(raw, item.id, item.observation, item.record)
    ensures Unbacked(raw, item) == Some(NoEvidence) <==> item.id !in raw || raw[item.id] == []
    ensures Unbacked(raw, item) == Some(ConflictingEvidence) <==>
            item.id in raw && exists e, f :: e in raw[item.id] && f in raw[item.id] && e.observation != f.observation
    ensures Unbacked(raw, item) == Some(LineageAbsent) <==>
            && item.id in raw && raw[item.id] != []
            && forall e :: e in raw[item.id] ==> e.observation == item.observation && e.record != item.record
  {
    if item.id in raw && raw[item.id] != [] {
      var evidence := raw[item.id];
      assert evidence[0] in evidence;
      if AgreedEvidence(evidence) {
        forall e | e in evidence ensures e.observation == evidence[0].observation {
          var i :| 0 <= i < |evidence| && evidence[i] == e;
        }
      } else {
        var i, j :| 0 <= i < |evidence| && 0 <= j < |evidence| && evidence[i].observation != evidence[j].observation;
        assert evidence[i] in evidence && evidence[j] in evidence;
      }
      if BackedBy(raw, item.id, item.observation, item.record) {
        var e :| e in evidence && e.record == item.record;
        assert e == Evidence(item.record, item.observation);
      }
    }
  }

  // ----- the verdict -----

  predicate IsSupply(p: Payload) {
    p.TradeCorrection? && p.kind.Unknown?
  }

  ghost predicate AllBacked(raw: RawUnion, ps: seq<Payload>) {
    forall i :: 0 <= i < |ps| && NamesTrade(ps[i]) ==> RawBacks(raw, ps[i])
  }

  ghost predicate AllAbove(ps: seq<Payload>, floor: int) {
    forall id :: Supplied(ps, id) ==> floor < id
  }

  /** Above the floor the journal has the raw trades, and with the bound those up to the last published. */
  ghost predicate SameTrade(raw: RawUnion, ps: seq<Payload>, bounded: bool, id: int) {
    Published(ps, id) || Supplied(ps, id) <==> id in raw && (bounded ==> exists last :: Published(ps, last) && id <= last)
  }

  ghost predicate SameTrades(raw: RawUnion, ps: seq<Payload>, floor: int, bounded: bool) {
    forall id :: floor < id ==> SameTrade(raw, ps, bounded, id)
  }

  ghost predicate AgreesWithRaw(raw: RawUnion, ps: seq<Payload>, floor: int, bounded: bool) {
    AllBacked(raw, ps) && AllAbove(ps, floor) && SameTrades(raw, ps, floor, bounded)
  }

  ghost function SupplyPlaces(ps: seq<Payload>): set<int> {
    set i | 0 <= i < |ps| && IsSupply(ps[i])
  }

  lemma BackedMeans(raw: RawUnion, ps: seq<Payload>, k: Canonical)
    requires ListsTrades(ps, k.trades) && ListsCorrections(ps, k.corrections)
    ensures TradesBacked(raw, k.trades) && CorrectionsBacked(raw, k.corrections) <==> AllBacked(raw, ps)
  {
    hide Unbacked, Places, BackedBy;
    var ts, cs := Places(ps, Trades), Places(ps, Corrections);
    forall j | 0 <= j < |k.trades| ensures Backed(raw, k.trades[j]) <==> RawBacks(raw, ps[ts[j]]) {
      UnbackedMeans(raw, k.trades[j]);
    }
    forall j | 0 <= j < |k.corrections| ensures Backed(raw, k.corrections[j].item) <==> RawBacks(raw, ps[cs[j]]) {
      UnbackedMeans(raw, k.corrections[j].item);
    }
    if TradesBacked(raw, k.trades) && CorrectionsBacked(raw, k.corrections) {
      forall i | 0 <= i < |ps| && NamesTrade(ps[i]) ensures RawBacks(raw, ps[i]) {
        if ps[i].TradeObservation? {
          var j :| 0 <= j < |ts| && ts[j] == i;
          assert Backed(raw, k.trades[j]);
        } else {
          var j :| 0 <= j < |cs| && cs[j] == i;
          assert Backed(raw, k.corrections[j].item);
        }
      }
    }
    if AllBacked(raw, ps) {
      forall j | 0 <= j < |k.trades| ensures Backed(raw, k.trades[j]) {
        assert RawBacks(raw, ps[ts[j]]);
      }
      forall j | 0 <= j < |k.corrections| ensures Backed(raw, k.corrections[j].item) {
        assert RawBacks(raw, ps[cs[j]]);
      }
    }
  }

  lemma AboveMeans(ps: seq<Payload>, k: Canonical, floor: int)
    requires ListsCorrections(ps, k.corrections)
    ensures AllClearFloor(k.corrections, floor) <==> AllAbove(ps, floor)
  {
    hide Places;
    var cs := Places(ps, Corrections);
    if AllClearFloor(k.corrections, floor) {
      forall id | Supplied(ps, id) ensures floor < id {
        var i :| 0 <= i < |ps| && Supplies(ps[i], id);
        var j :| 0 <= j < |cs| && cs[j] == i;
        assert ClearsFloor(k.corrections[j], floor);
      }
    }
    if AllAbove(ps, floor) {
      forall j | 0 <= j < |k.corrections| ensures ClearsFloor(k.corrections[j], floor) {
        if k.corrections[j].kind.Unknown? {
          assert Supplies(ps[cs[j]], k.corrections[j].item.id);
          assert Supplied(ps, k.corrections[j].item.id);
        }
      }
    }
  }

  /** The bound of the window is the last published trade, which is the largest. */
  lemma BoundMeans(ps: seq<Payload>, c: Core, k: Canonical, id: int)
    requires TradesHeld(c, ps) && PublishedFacts(c, k) && id > OrZero(k.floor)
    ensures
      var bound := UpperBound(k, true).value;
      id <= bound <==> exists last :: Published(ps, last) && id <= last
  {
    hide Published, Supplied, Increasing, AsMap;
    if k.trades != [] {
      var last := k.trades[|k.trades| - 1].id;
      TradesMean(c, ps, last);
    }
    if exists last :: Published(ps, last) && id <= last {
      var last :| Published(ps, last) && id <= last;
      TradesMean(c, ps, last);
    }
  }

  lemma WindowMeans(raw: RawUnion, ps: seq<Payload>, c: Core, k: Canonical, bounded: bool)
    requires TradesHeld(c, ps) && PublishedFacts(c, k)
    ensures
      var floor := OrZero(k.floor);
      Above(c.published + c.corrected, floor) == Window(raw, floor, UpperBound(k, bounded)) <==>
      SameTrades(raw, ps, floor, bounded)
  {
    hide Published, Supplied, PublishedFacts, TradesHeld, UpperBound;
    var floor, known := OrZero(k.floor), c.published + c.corrected;
    var above, window := Above(known, floor), Window(raw, floor, UpperBound(k, bounded));
    forall id | floor < id ensures SameTrade(raw, ps, bounded, id) <==> (id in above <==> id in window) {
      TradesMean(c, ps, id);
      if bounded {
        BoundMeans(ps, c, k, id);
      }
      Unbounded(k, bounded);
    }
    if SameTrades(raw, ps, floor, bounded) {
      forall id ensures id in above <==> id in window {
        if floor < id {
          assert SameTrade(raw, ps, bounded, id);
        }
      }
      assert above == window;
    }
  }

  lemma Unbounded(k: Canonical, bounded: bool)
    ensures UpperBound(k, bounded).None? <==> !bounded
  {
  }

  lemma OneFloor(ps: seq<Payload>, a: Option<int>, b: Option<int>)
    requires FloorIs(ps, a) && FloorIs(ps, b)
    ensures a == b
  {
    if a.Some? && b.Some? {
      var i :| 0 <= i < |ps| && Opens(ps[i]) && ps[i].floor == IntFloor(a.value)
        && forall j :: 0 <= j < i && Opens(ps[j]) ==> ps[j].floor.NoFloor?;
      var j :| 0 <= j < |ps| && Opens(ps[j]) && ps[j].floor == IntFloor(b.value)
        && forall i :: 0 <= i < j && Opens(ps[i]) ==> ps[i].floor.NoFloor?;
      assert !(i < j) && !(j < i);
    }
  }

  lemma {:induction false} UnknownsCounted(ps: seq<Payload>)
    requires Collect(ps).Some?
    ensures CountUnknown(Collect(ps).value.corrections) == |SupplyPlaces(ps)|
  {
    hide CollectStep;
    if ps != [] {
      var last := |ps| - 1;
      var front := ps[..last];
      UnknownsCounted(front);
      UnknownsNext(Collect(front).value, ps[last]);
      assert SupplyPlaces(ps) == if IsSupply(ps[last]) then SupplyPlaces(front) + {last} else SupplyPlaces(front);
    }
  }

  lemma UnknownsNext(k: Canonical, p: Payload)
    requires CollectStep(k, p).Some?
    ensures CountUnknown(CollectStep(k, p).value.corrections) == CountUnknown(k.corrections) + if IsSupply(p) then 1 else 0
  {
    if p.TradeCorrection? {
      var next := CollectStep(k, p).value.corrections;
      assert next[..|next| - 1] == k.corrections;
    }
  }

  /**
    The offline trade verification of an accepted set succeeds exactly when the raw capture backs
    every trade and correction, no supplied trade is at or below the floor, and above the floor
    the journal has exactly the raw trades, up to the last published one if the window is bounded.
    Its count is that of the published and the supplied trades.
   */
  lemma {:induction false} TradeVerdictIsExact(
    digest: Body -> Digest, segments: seq<Segment>, incremental: bool, raw: RawUnion, bounded: bool, floor: Option<int>)
    requires Accepted(digest, segments, incremental) && Collect(Flatten(segments)).Some? && FloorIs(Flatten(segments), floor)
    ensures
      var ps := Flatten(segments);
      var r := Verdict(Collect(ps).value, raw, bounded);
      && (r.Ok? <==> AgreesWithRaw(raw, ps, floor.GetOr(0), bounded))
      && (r.Ok? ==> r.value == |Positions(ps, Trades)| + |SupplyPlaces(ps)|)
  {
    hide RunSet, CoreRun, Collect, Flatten, Verdict, FloorIs, AllBacked, AllAbove, SameTrades, TradesBacked, CorrectionsBacked;
    hide AllClearFloor, PublishedFacts, TradesHeld, ListsTrades, ListsCorrections, ListsFrames, ListsReboots, Positions;
    hide SupplyPlaces, Window, UpperBound, Published, LastDepthIs, ScopeIs, ServingLaneIs, StartupIs, ArtifactsAre;
    var ps := Flatten(segments);
    var k := Collect(ps).value;
    CollectMeans(ps);
    OneFloor(ps, floor, k.floor);
    SetIsOneRun(digest, segments);
    CollectAgrees(ps);
    var c := CoreRun(ps).value;
    LastTradeMeans(ps, c);
    OfflineVerdict(digest, segments, incremental, raw, bounded);
    BackedMeans(raw, ps, k);
    AboveMeans(ps, k, OrZero(k.floor));
    WindowMeans(raw, ps, c, k, bounded);
    UnknownsCounted(ps);
    RunCounted(ps, Trades);
  }
}
