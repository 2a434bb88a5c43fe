/**
  When the audit accepts a payload, told from the earlier payloads alone, and what its report says
  of the whole journal.
 */
module ArbitrationHistory {
  import opened Wrappers
  import opened ArbitrationAudit
  import opened ArbitrationRuns

  // ----- what the journal has said -----

  predicate Publishes(p: Payload, id: int) {
    p.TradeObservation? && p.id == Some(id)
  }

  /** A correction that adds a trade the arbiter never published. */
  predicate Supplies(p: Payload, id: int) {
    p.TradeCorrection? && p.kind.Unknown? && p.id == Some(id)
  }

  ghost predicate Published(ps: seq<Payload>, id: int) {
    exists i :: 0 <= i < |ps| && Publishes(ps[i], id)
  }

  ghost predicate Supplied(ps: seq<Payload>, id: int) {
    exists i :: 0 <= i < |ps| && Supplies(ps[i], id)
  }

  /** The journal gives this digest for the trade. */
  ghost predicate Stated(ps: seq<Payload>, id: int, observation: Digest) {
    exists i :: 0 <= i < |ps| && (Publishes(ps[i], id) || Supplies(ps[i], id)) && ps[i].observation == Some(observation)
  }

  predicate HasStarted(ps: seq<Payload>) {
    ps != [] && ps[0].Started?
  }

  /** The floor that STARTED set. */
  function FloorOf(ps: seq<Payload>): Option<int> {
    if HasStarted(ps) && ps[0].floor.IntFloor? then Some(ps[0].floor.n) else None
  }

  /** The final sequence of the last depth observation. */
  function Cursor(ps: seq<Payload>): Option<int> {
    if LastDepth(ps) >= 0 then ps[LastDepth(ps)].final else None
  }

  /** A gap has been declared since the last depth observation. */
  ghost predicate InGap(ps: seq<Payload>) {
    exists k :: LastDepth(ps) < k < |ps| && ps[k].Gap?
  }

  /** What the audit counts. */
  datatype Tag = Trades | Frames | Gaps | Corrections | Reboots | Statuses

  predicate IsA(p: Payload, tag: Tag) {
    match tag
    case Trades => p.TradeObservation?
    case Frames => p.DepthObservation?
    case Gaps => p.Gap?
    case Corrections => p.TradeCorrection?
    case Reboots => p.DepthRebootstrap?
    case Statuses => p.TradeLag? || p.TradeConflict? || p.DepthRebootstrap? || p.DepthSwitchProven?
  }

  ghost function Positions(ps: seq<Payload>, tag: Tag): set<int> {
    set i | 0 <= i < |ps| && IsA(ps[i], tag)
  }

  /** The counts that a TERMINAL must declare. */
  ghost function Totals(ps: seq<Payload>): Counters {
    Counters(|Positions(ps, Trades)|, |Positions(ps, Frames)|, |Positions(ps, Gaps)|, |Positions(ps, Corrections)|)
  }

  // ----- what may follow -----

  ghost predicate MayPublish(ps: seq<Payload>, id: int) {
    && id > 0 && (FloorOf(ps).Some? ==> id > FloorOf(ps).value)
    && forall k :: Published(ps, k) ==> k < id
  }

  ghost predicate MayCorrect(ps: seq<Payload>, id: int, observation: Digest, kind: Kind) {
    && (exists k :: Published(ps, k) && id <= k)
    && match kind
       case Duplicate => Stated(ps, id, observation)
       case Unknown => !Published(ps, id) && !Supplied(ps, id) && id > FloorOf(ps).GetOr(0)
       case Unclassified => false
  }

  /** A first frame, a frame beyond the cursor in a gap, or the frame right after the cursor. */
  ghost predicate MayObserve(ps: seq<Payload>, first: int, final: int) {
    && 1 <= first <= final
    && (LastDepth(ps) >= 0 ==>
          Cursor(ps).Some? && if InGap(ps) then first > Cursor(ps).value else first == Cursor(ps).value + 1)
  }

  /** The floor of a restart: the largest of the STARTED floor, the published trades and zero. */
  ghost predicate IsResumeFloor(ps: seq<Payload>, n: int) {
    && n >= 0 && (FloorOf(ps).Some? ==> n >= FloorOf(ps).value) && (forall k :: Published(ps, k) ==> k <= n)
    && (n == 0 || FloorOf(ps) == Some(n) || Published(ps, n))
  }

  ghost predicate MayFollow(ps: seq<Payload>, p: Payload) {
    match p
    case Started(symbol, floor, _) =>
      ps == [] && symbol.Some? && (floor.NoFloor? || (floor.IntFloor? && floor.n >= 0))
    case Resumed(_, _, floor, _, _, _) => HasStarted(ps) && floor.IntFloor? && IsResumeFloor(ps, floor.n)
    case Terminal(complete, declared, _, _) => HasStarted(ps) && complete && declared == Totals(ps)
    case TradeObservation(id, observation, record) =>
      id.Some? && observation.Some? && record.Some? && MayPublish(ps, id.value)
    case TradeCorrection(id, observation, record, kind) =>
      id.Some? && observation.Some? && record.Some? && MayCorrect(ps, id.value, observation.value, kind)
    case DepthObservation(first, final, lane, observation, record) =>
      && lane.Some? && observation.Some? && record.Some?
      && first.Some? && final.Some? && MayObserve(ps, first.value, final.value)
    case Gap(last) => last == Some(Cursor(ps).GetOr(0))
    case DepthRebootstrap(complete, _, _) => complete && InGap(ps)
    case TradeLag(buffered) => buffered.Some?
    case TradeConflict(id) => id.Some?
    case DepthSwitchProven => true
    case UnknownEvent => false
  }

  // ----- the state holds what was said -----

  /** The state holds the trade that the record names. */
  predicate HeldIn(c: Core, p: Payload) {
    && (p.TradeObservation? ==>
          p.id.Some? && p.observation.Some? && p.id.value in c.published && c.published[p.id.value] == p.observation.value)
    && (p.TradeCorrection? && p.kind.Unknown? ==>
          p.id.Some? && p.observation.Some? && p.id.value in c.corrected && c.corrected[p.id.value] == p.observation.value)
  }

  ghost predicate TradesHeld(c: Core, ps: seq<Payload>) {
    && (forall i :: 0 <= i < |ps| ==> HeldIn(c, ps[i]))
    && (forall id :: id in c.published ==> Published(ps, id) && c.lastTrade.Some? && id <= c.lastTrade.value)
    && (forall id :: id in c.corrected ==> Supplied(ps, id) && c.lastTrade.Some? && id <= c.lastTrade.value)
    && (forall id :: id in c.corrected ==> id !in c.published)
    && (c.lastTrade.Some? ==> c.lastTrade.value in c.published)
  }

  lemma PublishedNext(ps: seq<Payload>, p: Payload, id: int)
    ensures Published(ps + [p], id) <==> Published(ps, id) || Publishes(p, id)
    ensures Supplied(ps + [p], id) <==> Supplied(ps, id) || Supplies(p, id)
  {
    var all := ps + [p];
    assert all[|ps|] == p;
    if Published(ps, id) {
      var i :| 0 <= i < |ps| && Publishes(ps[i], id);
      assert Publishes(all[i], id);
    }
    if Supplied(ps, id) {
      var i :| 0 <= i < |ps| && Supplies(ps[i], id);
      assert Supplies(all[i], id);
    }
  }

  /** What one payload does to the trades of the state. */
  lemma StepTrades(c: Core, p: Payload)
    requires CoreStep(c, p).Some?
    ensures
      var next := CoreStep(c, p).value;
      && (match p
          case TradeObservation(id, observation, _) =>
            && id.Some? && observation.Some? && next.published == c.published[id.value := observation.value]
            && next.corrected == c.corrected && next.lastTrade == id && (c.lastTrade.Some? ==> id.value > c.lastTrade.value)
          case TradeCorrection(id, observation, _, kind) =>
            && id.Some? && observation.Some? && c.lastTrade.Some? && id.value <= c.lastTrade.value
            && next.published == c.published && next.lastTrade == c.lastTrade
            && next.corrected == (if kind.Unknown? then c.corrected[id.value := observation.value] else c.corrected)
            && (kind.Unknown? ==> id.value !in c.published && id.value !in c.corrected)
          case _ => next.published == c.published && next.corrected == c.corrected && next.lastTrade == c.lastTrade)
  {
    match p
    case TradeObservation(_, _, _) =>
    case TradeCorrection(_, _, _, _) =>
    case _ =>
  }

  lemma TradesHeldStep(c: Core, ps: seq<Payload>, p: Payload)
    requires TradesHeld(c, ps) && CoreStep(c, p).Some?
    ensures TradesHeld(CoreStep(c, p).value, ps + [p])
  {
    hide CoreStep, Published, Supplied;
    StepTrades(c, p);
    var next, all := CoreStep(c, p).value, ps + [p];
    forall i | 0 <= i < |all| ensures HeldIn(next, all[i]) {
      if i < |ps| {
        assert HeldIn(c, ps[i]);
      }
    }
    forall id | id in next.published ensures Published(all, id) {
      PublishedNext(ps, p, id);
    }
    forall id | id in next.corrected ensures Supplied(all, id) {
      PublishedNext(ps, p, id);
    }
  }

  lemma {:induction false} RunHoldsTrades(ps: seq<Payload>)
    requires CoreRun(ps).Some?
    ensures TradesHeld(CoreRun(ps).value, ps)
  {
    hide CoreStep;
    if ps != [] {
      var last := |ps| - 1;
      RunHoldsTrades(ps[..last]);
      TradesHeldStep(CoreRun(ps[..last]).value, ps[..last], ps[last]);
      assert ps[..last] + [ps[last]] == ps;
    }
  }

  /** The maps of the state are what the journal published and supplied. */
  lemma TradesMean(c: Core, ps: seq<Payload>, id: int)
    requires TradesHeld(c, ps)
    ensures id in c.published <==> Published(ps, id)
    ensures id in c.corrected <==> Supplied(ps, id)
    ensures forall observation ::
      Stated(ps, id, observation) <==>
      (id in c.published && c.published[id] == observation) || (id in c.corrected && c.corrected[id] == observation)
  {
    if Published(ps, id) {
      var i :| 0 <= i < |ps| && Publishes(ps[i], id);
      assert HeldIn(c, ps[i]);
      assert Stated(ps, id, c.published[id]);
    }
    if Supplied(ps, id) {
      var i :| 0 <= i < |ps| && Supplies(ps[i], id);
      assert HeldIn(c, ps[i]);
      assert Stated(ps, id, c.corrected[id]);
    }
    forall observation | Stated(ps, id, observation)
      ensures (id in c.published && c.published[id] == observation) || (id in c.corrected && c.corrected[id] == observation)
    {
      var i :| 0 <= i < |ps| && (Publishes(ps[i], id) || Supplies(ps[i], id)) && ps[i].observation == Some(observation);
      assert HeldIn(c, ps[i]);
    }
  }

  lemma StepOpens(c: Core, p: Payload)
    requires CoreStep(c, p).Some?
    ensures
      var next := CoreStep(c, p).value;
      if p.Started? then
        && next.started && next.floor == (if p.floor.IntFloor? then Some(p.floor.n) else None)
        && (next.floor.Some? ==> next.floor.value >= 0)
      else next.started == c.started && next.floor == c.floor
  {
    match p
    case TradeCorrection(_, _, _, _) =>
    case _ =>
  }

  lemma {:induction false} RunOpens(ps: seq<Payload>)
    requires CoreRun(ps).Some?
    ensures
      var c := CoreRun(ps).value;
      c.started == HasStarted(ps) && c.floor == FloorOf(ps) && (c.floor.Some? ==> c.floor.value >= 0)
  {
    hide CoreStep;
    if ps != [] {
      var last := |ps| - 1;
      RunOpens(ps[..last]);
      assert last > 0 ==> ps[..last][0] == ps[0];
      StepOpens(CoreRun(ps[..last]).value, ps[last]);
    }
  }

  /** The cursor and the gap flag of the state. */
  lemma DepthMeans(c: Core, ps: seq<Payload>)
    requires CoreRun(ps) == Some(c)
    ensures c.lastDepth == Cursor(ps) && (LastDepth(ps) >= 0 ==> c.lastDepth.Some?)
    ensures c.exactNext == if LastDepth(ps) < 0 || InGap(ps) then None else Some(Cursor(ps).value + 1)
    ensures c.gaps > 0 && c.exactNext.None? <==> InGap(ps)
  {
    hide CoreRun, LastDepth, RangeWithin;
    RunKeepsDepthFacts(ps);
    RunGaps(ps);
    RunCounts(ps);
    GapsCounted(ps);
    if LastDepth(ps) >= 0 && c.exactNext.None? {
      var k :| 0 <= LastDepth(ps) < k < |ps| && Declares(ps[k], c.lastDepth);
      assert ps[k].Gap?;
    }
  }

  lemma {:induction false} GapsCounted(ps: seq<Payload>)
    ensures CountGaps(ps) > 0 <==> exists k :: 0 <= k < |ps| && ps[k].Gap?
  {
    if ps != [] {
      var last := |ps| - 1;
      GapsCounted(ps[..last]);
      if exists k :: 0 <= k < |ps| && ps[k].Gap? {
        var k :| 0 <= k < |ps| && ps[k].Gap?;
        assert k < last ==> ps[..last][k].Gap?;
      }
      if exists k :: 0 <= k < last && ps[..last][k].Gap? {
        var k :| 0 <= k < last && ps[..last][k].Gap?;
        assert ps[k].Gap?;
      }
    }
  }

  /** A gap since the last frame leaves no exact next. */
  lemma {:induction false} RunGaps(ps: seq<Payload>)
    requires CoreRun(ps).Some?
    ensures InGap(ps) ==> CoreRun(ps).value.exactNext.None?
  {
    hide CoreStep, LastDepth;
    if ps != [] {
      var last := |ps| - 1;
      var c := CoreRun(ps[..last]).value;
      RunGaps(ps[..last]);
      RunKeepsDepthFacts(ps[..last]);
      CursorGrows(c, ps[last]);
      LastDepthNext(ps);
      if InGap(ps) && !ps[last].Gap? {
        OtherRecordsKeepDepth(c, ps[last]);
        var k :| LastDepth(ps) < k < |ps| && ps[k].Gap?;
        assert ps[..last][k].Gap?;
      }
    }
  }

  lemma LastDepthNext(ps: seq<Payload>)
    requires ps != []
    ensures LastDepth(ps) == if ps[|ps| - 1].DepthObservation? then |ps| - 1 else LastDepth(ps[..|ps| - 1])
  {
  }

  function Counted(c: Core, tag: Tag): nat {
    match tag
    case Trades => c.trades
    case Frames => c.depthFrames
    case Gaps => c.gaps
    case Corrections => c.lateCorrections
    case Reboots => c.rebootstraps
    case Statuses => c.statusRecords
  }

  lemma StepCounted(c: Core, p: Payload, tag: Tag)
    requires CoreStep(c, p).Some?
    ensures
      var next := CoreStep(c, p).value;
      && Counted(next, tag) == Counted(c, tag) + (if IsA(p, tag) then 1 else 0)
      && next.records == c.records + 1
      && next.observations == c.observations + (if IsA(p, Trades) || IsA(p, Frames) then 1 else 0)
  {
    match p
    case TradeCorrection(_, _, _, _) =>
    case _ =>
  }

  lemma {:induction false} RunCounted(ps: seq<Payload>, tag: Tag)
    requires CoreRun(ps).Some?
    ensures Counted(CoreRun(ps).value, tag) == |Positions(ps, tag)|
  {
    hide CoreStep, IsA, Positions, Counted;
    if ps != [] {
      var last := |ps| - 1;
      RunCounted(ps[..last], tag);
      StepCounted(CoreRun(ps[..last]).value, ps[last], tag);
      PositionsNext(ps, tag);
    } else {
      NothingCounted(tag);
    }
  }

  lemma NothingCounted(tag: Tag)
    ensures Counted(FRESH_CORE, tag) == 0 && Positions([], tag) == {}
  {
  }

  lemma PositionsNext(ps: seq<Payload>, tag: Tag)
    requires ps != []
    ensures |Positions(ps, tag)| == |Positions(ps[..|ps| - 1], tag)| + if IsA(ps[|ps| - 1], tag) then 1 else 0
  {
    hide IsA;
    var last := |ps| - 1;
    var front := Positions(ps[..last], tag);
    assert Positions(ps, tag) == if IsA(ps[last], tag) then front + {last} else front;
  }

  lemma {:induction false} RunRecords(ps: seq<Payload>)
    requires CoreRun(ps).Some?
    ensures
      var c := CoreRun(ps).value;
      c.records == |ps| && c.observations == c.trades + c.depthFrames
  {
    hide CoreStep;
    if ps != [] {
      var last := |ps| - 1;
      RunRecords(ps[..last]);
      StepCounted(CoreRun(ps[..last]).value, ps[last], Trades);
      StepCounted(CoreRun(ps[..last]).value, ps[last], Frames);
    }
  }

  lemma RunTotals(ps: seq<Payload>)
    requires CoreRun(ps).Some?
    ensures Audited(CoreRun(ps).value) == Totals(ps)
  {
    hide CoreRun, Positions;
    RunCounted(ps, Trades);
    RunCounted(ps, Frames);
    RunCounted(ps, Gaps);
    RunCounted(ps, Corrections);
  }

  /** Every field of the report: counts, trades with their digests, cursors and floor. */
  lemma {:induction false} ReportMeans(ps: seq<Payload>, id: int)
    requires CoreRun(ps).Some?
    ensures
      var c := CoreRun(ps).value;
      && c.records == |ps| && c.observations == |Positions(ps, Trades)| + |Positions(ps, Frames)|
      && Audited(c) == Totals(ps)
      && c.rebootstraps == |Positions(ps, Reboots)| && c.statusRecords == |Positions(ps, Statuses)|
      && (id in c.published <==> Published(ps, id)) && (id in c.corrected <==> Supplied(ps, id))
      && (id in c.published ==> Stated(ps, id, c.published[id]) && id !in c.corrected)
      && (id in c.corrected ==> Stated(ps, id, c.corrected[id]))
      && (c.lastTrade.Some? ==> Published(ps, c.lastTrade.value))
      && (Published(ps, id) ==> c.lastTrade.Some? && id <= c.lastTrade.value)
      && c.lastDepth == Cursor(ps) && c.started == HasStarted(ps) && c.floor == FloorOf(ps)
  {
    hide CoreRun, Positions, Published, Supplied, Stated, LastDepth, InGap;
    var c := CoreRun(ps).value;
    RunRecords(ps);
    RunTotals(ps);
    RunCounted(ps, Reboots);
    RunCounted(ps, Statuses);
    LastTradeMeans(ps, c);
    TradesMean(c, ps, id);
    DepthMeans(c, ps);
  }

  // ----- each payload is accepted exactly when it may follow -----

  ghost predicate Reached(ps: seq<Payload>, c: Core) {
    CoreRun(ps) == Some(c)
  }

  lemma LastTradeMeans(ps: seq<Payload>, c: Core)
    requires Reached(ps, c)
    ensures TradesHeld(c, ps)
    ensures c.lastTrade.Some? ==> Published(ps, c.lastTrade.value)
    ensures forall k :: Published(ps, k) ==> c.lastTrade.Some? && k <= c.lastTrade.value
    ensures c.floor == FloorOf(ps) && c.started == HasStarted(ps) && (c.floor.Some? ==> c.floor.value >= 0)
  {
    hide CoreRun, Published, Supplied;
    RunHoldsTrades(ps);
    RunOpens(ps);
    forall k | Published(ps, k) ensures c.lastTrade.Some? && k <= c.lastTrade.value {
      TradesMean(c, ps, k);
    }
  }

  lemma PublishExactly(ps: seq<Payload>, c: Core, id: Option<int>, observation: Option<Digest>, record: Option<Digest>)
    requires Reached(ps, c)
    ensures
      TradeStep(c, id, observation, record).Some? <==>
      id.Some? && observation.Some? && record.Some? && MayPublish(ps, id.value)
  {
    hide Reached, TradesHeld, Published;
    LastTradeMeans(ps, c);
  }

  lemma CorrectExactly(ps: seq<Payload>, c: Core, id: Option<int>, observation: Option<Digest>, record: Option<Digest>, kind: Kind)
    requires Reached(ps, c)
    ensures
      CorrectionStep(c, id, observation, record, kind).Some? <==>
      id.Some? && observation.Some? && record.Some? && MayCorrect(ps, id.value, observation.value, kind)
  {
    hide Reached, Published, Supplied, Stated;
    LastTradeMeans(ps, c);
    if id.Some? {
      TradesMean(c, ps, id.value);
    }
  }

  lemma ObserveExactly(ps: seq<Payload>, c: Core, p: Payload)
    requires Reached(ps, c) && p.DepthObservation?
    ensures DepthStep(c, p).Some? <==> MayFollow(ps, p)
  {
    hide CoreRun, LastDepth, InGap;
    DepthMeans(c, ps);
  }

  lemma ResumeExactly(ps: seq<Payload>, c: Core, n: int)
    requires Reached(ps, c)
    ensures
      var lastTrade, floor := OrZero(c.lastTrade), OrZero(c.floor);
      n == (if lastTrade >= floor then lastTrade else floor) <==> IsResumeFloor(ps, n)
  {
    hide Reached, TradesHeld, Published;
    LastTradeMeans(ps, c);
    PublishedArePositive(ps, c);
  }

  lemma PublishedArePositive(ps: seq<Payload>, c: Core)
    requires Reached(ps, c)
    ensures c.lastTrade.Some? ==> c.lastTrade.value > 0
  {
    hide CoreStep;
    if ps != [] {
      var last := |ps| - 1;
      PublishedArePositive(ps[..last], CoreRun(ps[..last]).value);
      StepTrades(CoreRun(ps[..last]).value, ps[last]);
      if ps[last].TradeObservation? {
        TradeIsPositive(CoreRun(ps[..last]).value, ps[last]);
      }
    }
  }

  lemma TradeIsPositive(c: Core, p: Payload)
    requires CoreStep(c, p).Some? && p.TradeObservation?
    ensures p.id.Some? && p.id.value > 0
  {
  }

  lemma {:induction false} PayloadExactly(ps: seq<Payload>, c: Core, p: Payload)
    requires Reached(ps, c)
    ensures PayloadStep(c, p).Some? && !(p.Started? && ps != []) <==> MayFollow(ps, p)
  {
    hide CoreRun, TradeStep, CorrectionStep, DepthStep, MayPublish, MayCorrect, MayObserve, InGap, LastDepth, Published, Totals;
    hide TradesHeld, IsResumeFloor;
    match p
    case Started(_, _, _) =>
    case Resumed(_, _, floor, _, _, _) =>
      LastTradeMeans(ps, c);
      if floor.IntFloor? {
        ResumeExactly(ps, c, floor.n);
      }
    case Terminal(_, _, _, _) =>
      LastTradeMeans(ps, c);
      RunTotals(ps);
    case TradeObservation(id, observation, record) => PublishExactly(ps, c, id, observation, record);
    case TradeCorrection(id, observation, record, kind) => CorrectExactly(ps, c, id, observation, record, kind);
    case DepthObservation(_, _, _, _, _) => ObserveExactly(ps, c, p);
    case Gap(_) => DepthMeans(c, ps);
    case DepthRebootstrap(_, _, _) => DepthMeans(c, ps);
    case _ =>
  }

  /** A journal runs exactly when each payload may follow the ones before it. */
  lemma {:induction false} RunsExactly(ps: seq<Payload>)
    ensures CoreRun(ps).Some? <==> forall i :: 0 <= i < |ps| ==> MayFollow(ps[..i], ps[i])
  {
    hide MayFollow, PayloadStep;
    if ps != [] {
      var last := |ps| - 1;
      var front := ps[..last];
      RunsExactly(front);
      forall i | 0 <= i < last ensures MayFollow(front[..i], front[i]) == MayFollow(ps[..i], ps[i]) {
        assert front[..i] == ps[..i];
      }
      if CoreRun(front).Some? {
        PayloadExactly(front, CoreRun(front).value, ps[last]);
      }
      if forall i :: 0 <= i < |ps| ==> MayFollow(ps[..i], ps[i]) {
        forall i | 0 <= i < last ensures MayFollow(front[..i], front[i]) {
          assert MayFollow(ps[..i], ps[i]);
        }
      }
    }
  }
}
