/**
  The offline reconstruction of the trade stream from the same journals, and its agreement with
  the online audit.
 */
module ArbitrationTrades {
  import opened Wrappers
  import opened ArbitrationAudit
  import opened ArbitrationRuns
  import opened ArbitrationCanonical

  datatype Evidence = Evidence(record: Digest, observation: Digest)

  type RawUnion = map<int, seq<Evidence>>

  datatype Rejection =
    | NoEvidence | ConflictingEvidence | DigestAbsent | LineageAbsent
    | DuplicateTrade | DuplicateContradicts | BelowFloor | UnknownContradicts | NoClassification
    | UnionDiffers

  // ----- the two passes -----

  predicate AgreedEvidence(evidence: seq<Evidence>) {
    forall i, j :: 0 <= i < |evidence| && 0 <= j < |evidence| ==> evidence[i].observation == evidence[j].observation
  }

  /** Why a journal item is not backed by the raw capture, if so. */
  function Unbacked(raw: RawUnion, item: TradeItem): Option<Rejection> {
    if item.id !in raw || raw[item.id] == [] then Some(NoEvidence)
    else if !AgreedEvidence(raw[item.id]) then Some(ConflictingEvidence)
    else if raw[item.id][0].observation != item.observation then Some(DigestAbsent)
    else if Evidence(item.record, item.observation) !in raw[item.id] then Some(LineageAbsent)
    else None
  }

  function TradeItemStep(raw: RawUnion, known: map<int, Digest>, item: TradeItem): Result<map<int, Digest>, Rejection> {
    if Unbacked(raw, item).Some? then Err(Unbacked(raw, item).value)
    else if item.id in known then Err(DuplicateTrade)
    else Ok(known[item.id := item.observation])
  }

  function CorrectionItemStep(raw: RawUnion, known: map<int, Digest>, c: Correction, floor: int, startup: bool): Result<map<int, Digest>, Rejection> {
    if Unbacked(raw, c.item).Some? then Err(Unbacked(raw, c.item).value)
    else
      match c.kind
      case Duplicate =>
        if c.item.id !in known || known[c.item.id] != c.item.observation then Err(DuplicateContradicts) else Ok(known)
      case Unknown =>
        if startup && c.item.id <= floor then Err(BelowFloor)
        else if c.item.id in known then Err(UnknownContradicts)
        else Ok(known[c.item.id := c.item.observation])
      case Unclassified => Err(NoClassification)
  }

  function TradePass(raw: RawUnion, items: seq<TradeItem>): Result<map<int, Digest>, Rejection> {
    if items == [] then Ok(map[])
    else
      var before := TradePass(raw, items[..|items| - 1]);
      if before.Err? then before else TradeItemStep(raw, before.value, items[|items| - 1])
  }

  function CorrectionPass(raw: RawUnion, base: map<int, Digest>, cs: seq<Correction>, floor: int, startup: bool): Result<map<int, Digest>, Rejection> {
    if cs == [] then Ok(base)
    else
      var before := CorrectionPass(raw, base, cs[..|cs| - 1], floor, startup);
      if before.Err? then before else CorrectionItemStep(raw, before.value, cs[|cs| - 1], floor, startup)
  }

  /** The raw identities the window must hold: above the floor and up to the bound, if any. */
  function Window(raw: RawUnion, floor: int, bound: Option<int>): set<int> {
    set id | id in raw && id > floor && (bound.None? || id <= bound.value)
  }

  function Above(known: map<int, Digest>, floor: int): set<int> {
    set id | id in known && id > floor
  }

  function UpperBound(k: Canonical, boundToLast: bool): Option<int> {
    if !boundToLast then None
    else Some(if k.trades != [] then k.trades[|k.trades| - 1].id else OrZero(k.floor))
  }

  /** The reconstruction of published trades and first unknown corrections. */
  function Reconstruct(k: Canonical, raw: RawUnion): Result<map<int, Digest>, Rejection> {
    var trades := TradePass(raw, k.trades);
    if trades.Err? then trades else CorrectionPass(raw, trades.value, k.corrections, OrZero(k.floor), k.startup)
  }

  function Verdict(k: Canonical, raw: RawUnion, boundToLast: bool): Result<nat, Rejection> {
    var known := Reconstruct(k, raw);
    if known.Err? then Err(known.error)
    else if Above(known.value, OrZero(k.floor)) != Window(raw, OrZero(k.floor), UpperBound(k, boundToLast))
    then Err(UnionDiffers)
    else Ok(|known.value|)
  }

  method PublishTrades(k: Canonical, raw: RawUnion) returns (r: Result<map<int, Digest>, Rejection>)
    ensures r == TradePass(raw, k.trades)
  {
    hide Unbacked;
    var reconstructed: map<int, Digest> := map[];
    for i := 0 to |k.trades|
      invariant TradePass(raw, k.trades[..i]) == Ok(reconstructed)
    {
      assert k.trades[..i + 1][..i] == k.trades[..i];
      var item := k.trades[i];
      var unbacked := Unbacked(raw, item);
      if unbacked.Some? || item.id in reconstructed {
        r := Err(if unbacked.Some? then unbacked.value else DuplicateTrade);
        TradePassStops(raw, k.trades, i + 1);
        return;
      }
      reconstructed := reconstructed[item.id := item.observation];
    }
    assert k.trades[..|k.trades|] == k.trades;
    return Ok(reconstructed);
  }

  method ApplyCorrections(k: Canonical, raw: RawUnion, base: map<int, Digest>) returns (r: Result<map<int, Digest>, Rejection>)
    ensures r == CorrectionPass(raw, base, k.corrections, OrZero(k.floor), k.startup)
  {
    hide CorrectionItemStep;
    var floor, reconstructed := OrZero(k.floor), base;
    for i := 0 to |k.corrections|
      invariant CorrectionPass(raw, base, k.corrections[..i], floor, k.startup) == Ok(reconstructed)
    {
      assert k.corrections[..i + 1][..i] == k.corrections[..i];
      var next := CorrectionItemStep(raw, reconstructed, k.corrections[i], floor, k.startup);
      if next.Err? {
        CorrectionPassStops(raw, base, k.corrections, floor, k.startup, i + 1);
        return next;
      }
      reconstructed := next.value;
    }
    assert k.corrections[..|k.corrections|] == k.corrections;
    return Ok(reconstructed);
  }

  /** `_verify_trades`: two loops over one dictionary and the comparison with the raw union. */
  method VerifyTrades(k: Canonical, raw: RawUnion, boundToLast: bool) returns (r: Result<nat, Rejection>)
    ensures r == Verdict(k, raw, boundToLast)
  {
    hide TradePass, CorrectionPass, Above, Window;
    var reconstructed := PublishTrades(k, raw);
    if reconstructed.Err? {
      return Err(reconstructed.error);
    }
    reconstructed := ApplyCorrections(k, raw, reconstructed.value);
    if reconstructed.Err? {
      return Err(reconstructed.error);
    }
    var floor := OrZero(k.floor);
    if Above(reconstructed.value, floor) != Window(raw, floor, UpperBound(k, boundToLast)) {
      return Err(UnionDiffers);
    }
    return Ok(|reconstructed.value|);
  }

  lemma {:induction false} TradePassStops(raw: RawUnion, items: seq<TradeItem>, i: nat)
    requires i <= |items| && TradePass(raw, items[..i]).Err?
    ensures TradePass(raw, items) == TradePass(raw, items[..i])
  {
    hide TradeItemStep;
    if i < |items| {
      assert items[..|items| - 1][..i] == items[..i];
      TradePassStops(raw, items[..|items| - 1], i);
    } else {
      assert items[..i] == items;
    }
  }

  lemma {:induction false} CorrectionPassStops(raw: RawUnion, base: map<int, Digest>, cs: seq<Correction>, floor: int, startup: bool, i: nat)
    requires i <= |cs| && CorrectionPass(raw, base, cs[..i], floor, startup).Err?
    ensures CorrectionPass(raw, base, cs, floor, startup) == CorrectionPass(raw, base, cs[..i], floor, startup)
  {
    hide CorrectionItemStep;
    if i < |cs| {
      assert cs[..|cs| - 1][..i] == cs[..i];
      CorrectionPassStops(raw, base, cs[..|cs| - 1], floor, startup, i);
    } else {
      assert cs[..i] == cs;
    }
  }

  // ----- what the audit and the reconstruction have in common -----

  function AsMap(items: seq<TradeItem>): map<int, Digest> {
    if items == [] then map[]
    else AsMap(items[..|items| - 1])[items[|items| - 1].id := items[|items| - 1].observation]
  }

  function CountUnknown(cs: seq<Correction>): nat {
    if cs == [] then 0 else CountUnknown(cs[..|cs| - 1]) + (if cs[|cs| - 1].kind.Unknown? then 1 else 0)
  }

  ghost predicate Increasing(items: seq<TradeItem>) {
    forall i, j :: 0 <= i < j < |items| ==> items[i].id < items[j].id
  }

  ghost predicate BelowCursor(id: int, c: Core) {
    c.lastTrade.Some? && id <= c.lastTrade.value
  }

  /** Published trades are the collected ones, and they increase up to the cursor. */
  ghost predicate PublishedFacts(c: Core, k: Canonical) {
    && Increasing(k.trades) && c.published == AsMap(k.trades)
    && (c.lastTrade.Some? <==> k.trades != [])
    && (k.trades != [] ==> c.lastTrade == Some(k.trades[|k.trades| - 1].id))
    && (forall id :: id in c.published ==> BelowCursor(id, c) && id > OrZero(c.floor))
    && |c.published| == |k.trades| == c.trades
  }

  /** Corrected identities are below the cursor, above the floor and not published. */
  ghost predicate CorrectedFacts(c: Core, k: Canonical) {
    && (forall id :: id in c.corrected ==> BelowCursor(id, c) && id > OrZero(c.floor) && id !in c.published)
    && |c.corrected| == CountUnknown(k.corrections) <= |k.corrections| == c.lateCorrections
    && (forall i :: 0 <= i < |k.corrections| ==> k.corrections[i].kind.Unknown? ==> UnknownKnown(k.corrections[i], c))
  }

  ghost predicate UnknownKnown(x: Correction, c: Core) {
    x.item.id in c.corrected
  }

  ghost predicate FloorFacts(c: Core, k: Canonical) {
    && k.startup == c.started
    && (!c.started ==> c.floor.None? && k.floor.None?)
    && (c.floor.Some? ==> k.floor == c.floor && c.floor.value >= 0)
    && (k.floor.Some? ==> 0 <= k.floor.value)
  }

  lemma {:induction false} CollectAgrees(ps: seq<Payload>)
    requires CoreRun(ps).Some? && Collect(ps).Some?
    ensures
      var c, k := CoreRun(ps).value, Collect(ps).value;
      PublishedFacts(c, k) && CorrectedFacts(c, k) && FloorFacts(c, k)
    ensures ps == [] ==> CoreRun(ps) == Some(FRESH_CORE) && Collect(ps) == Some(NOTHING)
  {
    hide CoreStep, CollectStep, PublishedFacts, CorrectedFacts, FloorFacts;
    if ps == [] {
      NothingAgrees();
    } else {
      var last := |ps| - 1;
      CollectAgrees(ps[..last]);
      var c, k := CoreRun(ps[..last]).value, Collect(ps[..last]).value;
      StepAgrees(c, k, ps[last], ps[..last] == []);
    }
  }

  lemma NothingAgrees()
    ensures PublishedFacts(FRESH_CORE, NOTHING) && CorrectedFacts(FRESH_CORE, NOTHING) && FloorFacts(FRESH_CORE, NOTHING)
  {
  }

  lemma StepAgrees(c: Core, k: Canonical, p: Payload, first: bool)
    requires PublishedFacts(c, k) && CorrectedFacts(c, k) && FloorFacts(c, k)
    requires CollectStep(k, p).Some?
    requires CoreStep(c, p).Some? && (p.Started? ==> first) && (first ==> c == FRESH_CORE && k == NOTHING)
    ensures
      var c', k' := CoreStep(c, p).value, CollectStep(k, p).value;
      PublishedFacts(c', k') && CorrectedFacts(c', k') && FloorFacts(c', k')
  {
    hide PublishedFacts, CorrectedFacts, FloorFacts, CoreStep, CollectStep;
    match p
    case TradeObservation(_, _, _) => TradeAgrees(c, k, p);
    case TradeCorrection(_, _, _, _) => CorrectionAgrees(c, k, p);
    case Started(_, _, _) => StartAgrees(c, k, p);
    case Resumed(_, _, _, _, _, _) => ResumeAgrees(c, k, p);
    case _ => OthersAgree(c, k, p);
  }

  lemma TradeAgrees(c: Core, k: Canonical, p: Payload)
    requires PublishedFacts(c, k) && CorrectedFacts(c, k) && FloorFacts(c, k)
    requires CoreStep(c, p).Some? && p.TradeObservation?
    ensures CollectStep(k, p).Some?
    ensures
      var c', k' := CoreStep(c, p).value, CollectStep(k, p).value;
      PublishedFacts(c', k') && CorrectedFacts(c', k') && FloorFacts(c', k')
  {
    hide PublishedFacts, CorrectedFacts;
    TradeIsPublished(c, k, p);
    TradeKeepsCorrected(c, k, p);
  }

  /** What an accepted trade does to the core and to the collected items. */
  lemma TradeChecked(c: Core, k: Canonical, p: Payload)
    requires CoreStep(c, p).Some? && p.TradeObservation?
    ensures p.id.Some? && p.observation.Some? && p.record.Some?
    ensures
      var next, id := CoreStep(c, p).value, p.id.value;
      && id > OrZero(c.floor) && !BelowCursor(id, c)
      && next.published == c.published[id := p.observation.value]
      && next.lastTrade == Some(id) && next.floor == c.floor && next.trades == c.trades + 1
      && CollectStep(k, p) == Some(k.(trades := k.trades + [TradeItem(id, p.observation.value, p.record.value)]))
  {
  }

  lemma TradeIsPublished(c: Core, k: Canonical, p: Payload)
    requires PublishedFacts(c, k) && CoreStep(c, p).Some? && p.TradeObservation? && CollectStep(k, p).Some?
    ensures PublishedFacts(CoreStep(c, p).value, CollectStep(k, p).value)
  {
    hide CoreStep, CollectStep, Increasing, AsMap;
    TradeChecked(c, k, p);
    var x := TradeItem(p.id.value, p.observation.value, p.record.value);
    AppendedIncreases(k.trades, x);
    AppendedMap(k.trades, x);
    SizeGrows(c.published, x.id, x.observation);
    CursorCovers(c, CoreStep(c, p).value, x.id, x.observation);
  }

  lemma AppendedMap(items: seq<TradeItem>, x: TradeItem)
    ensures AsMap(items + [x]) == AsMap(items)[x.id := x.observation]
  {
    assert (items + [x])[..|items|] == items;
  }

  lemma SizeGrows(m: map<int, Digest>, id: int, observation: Digest)
    requires id !in m
    ensures |m[id := observation]| == |m| + 1
  {
  }

  lemma CursorCovers(c: Core, c': Core, id: int, observation: Digest)
    requires forall i :: i in c.published ==> BelowCursor(i, c) && i > OrZero(c.floor)
    requires c'.published == c.published[id := observation] && c'.lastTrade == Some(id) && c'.floor == c.floor
    requires id > OrZero(c.floor) && !BelowCursor(id, c)
    ensures forall i :: i in c'.published ==> BelowCursor(i, c') && i > OrZero(c'.floor)
  {
  }

  lemma AppendedIncreases(items: seq<TradeItem>, x: TradeItem)
    requires Increasing(items) && (items != [] ==> items[|items| - 1].id < x.id)
    ensures Increasing(items + [x])
  {
  }

  lemma TradeKeepsCorrected(c: Core, k: Canonical, p: Payload)
    requires CorrectedFacts(c, k) && CoreStep(c, p).Some? && p.TradeObservation? && CollectStep(k, p).Some?
    ensures CorrectedFacts(CoreStep(c, p).value, CollectStep(k, p).value)
  {
    var c', k' := CoreStep(c, p).value, CollectStep(k, p).value;
    forall i | 0 <= i < |k'.corrections| && k'.corrections[i].kind.Unknown? ensures UnknownKnown(k'.corrections[i], c') {
      assert UnknownKnown(k.corrections[i], c);
    }
  }

  lemma CorrectionAgrees(c: Core, k: Canonical, p: Payload)
    requires PublishedFacts(c, k) && CorrectedFacts(c, k) && FloorFacts(c, k)
    requires CoreStep(c, p).Some? && p.TradeCorrection?
    ensures CollectStep(k, p).Some?
    ensures
      var c', k' := CoreStep(c, p).value, CollectStep(k, p).value;
      PublishedFacts(c', k') && CorrectedFacts(c', k') && FloorFacts(c', k')
  {
    hide CoreStep, CollectStep;
    CorrectionChecked(c, p);
    var x := Correction(TradeItem(p.id.value, p.observation.value, p.record.value), p.kind);
    CorrectionCollected(k, p, x);
    CorrectionKeeps(c, k, p);
    CorrectionIsKnown(c, k, p, x);
  }

  /** What an accepted correction leaves alone. */
  lemma CorrectionKeeps(c: Core, k: Canonical, p: Payload)
    requires PublishedFacts(c, k) && FloorFacts(c, k)
    requires CoreStep(c, p).Some? && p.TradeCorrection? && CollectStep(k, p).Some?
    ensures PublishedFacts(CoreStep(c, p).value, CollectStep(k, p).value)
    ensures FloorFacts(CoreStep(c, p).value, CollectStep(k, p).value)
  {
    var c' := CoreStep(c, p).value;
    assert c'.published == c.published && c'.lastTrade == c.lastTrade && c'.floor == c.floor;
    assert forall id :: BelowCursor(id, c') == BelowCursor(id, c);
  }

  lemma CorrectionIsKnown(c: Core, k: Canonical, p: Payload, x: Correction)
    requires CorrectedFacts(c, k) && CoreStep(c, p).Some? && p.TradeCorrection? && CollectStep(k, p).Some?
    requires CollectStep(k, p).value.corrections == k.corrections + [x] && x.kind == p.kind && Some(x.item.id) == p.id
    ensures CorrectedFacts(CoreStep(c, p).value, CollectStep(k, p).value)
  {
    hide CollectStep;
    var c', k' := CoreStep(c, p).value, CollectStep(k, p).value;
    assert k'.corrections[..|k.corrections|] == k.corrections;
    forall i | 0 <= i < |k'.corrections| && k'.corrections[i].kind.Unknown? ensures UnknownKnown(k'.corrections[i], c') {
      if i < |k.corrections| {
        assert UnknownKnown(k.corrections[i], c);
      }
    }
  }

  lemma StartAgrees(c: Core, k: Canonical, p: Payload)
    requires c == FRESH_CORE && k == NOTHING && CoreStep(c, p).Some? && p.Started?
    ensures CollectStep(k, p).Some?
    ensures
      var c', k' := CoreStep(c, p).value, CollectStep(k, p).value;
      PublishedFacts(c', k') && CorrectedFacts(c', k') && FloorFacts(c', k')
  {
  }

  lemma ResumeAgrees(c: Core, k: Canonical, p: Payload)
    requires PublishedFacts(c, k) && CorrectedFacts(c, k) && FloorFacts(c, k)
    requires CoreStep(c, p).Some? && p.Resumed?
    ensures CollectStep(k, p).Some?
    ensures
      var c', k' := CoreStep(c, p).value, CollectStep(k, p).value;
      PublishedFacts(c', k') && CorrectedFacts(c', k') && FloorFacts(c', k')
  {
    FactsFrame(c, k, CoreStep(c, p).value, CollectStep(k, p).value);
  }

  lemma OthersAgree(c: Core, k: Canonical, p: Payload)
    requires PublishedFacts(c, k) && CorrectedFacts(c, k) && FloorFacts(c, k)
    requires CoreStep(c, p).Some? && CollectStep(k, p).Some?
    requires !p.TradeObservation? && !p.TradeCorrection? && !p.Started? && !p.Resumed?
    ensures
      var c', k' := CoreStep(c, p).value, CollectStep(k, p).value;
      PublishedFacts(c', k') && CorrectedFacts(c', k') && FloorFacts(c', k')
  {
    hide PublishedFacts, CorrectedFacts;
    OthersLeaveTrades(c, k, p);
    FactsFrame(c, k, CoreStep(c, p).value, CollectStep(k, p).value);
  }

  lemma OthersLeaveTrades(c: Core, k: Canonical, p: Payload)
    requires CoreStep(c, p).Some? && CollectStep(k, p).Some?
    requires !p.TradeObservation? && !p.TradeCorrection? && !p.Started? && !p.Resumed?
    ensures
      var c', k' := CoreStep(c, p).value, CollectStep(k, p).value;
      && c'.published == c.published && c'.corrected == c.corrected && c'.lastTrade == c.lastTrade
      && c'.floor == c.floor && c'.trades == c.trades && c'.lateCorrections == c.lateCorrections
      && c'.started == c.started && k'.startup == k.startup && k'.floor == k.floor
      && k'.trades == k.trades && k'.corrections == k.corrections
  {
    match p
    case DepthObservation(_, _, _, _, _) =>
    case Gap(_) =>
    case DepthRebootstrap(_, _, _) =>
    case Terminal(_, _, _, _) =>
    case _ =>
  }

  /** The trade facts depend on the trade fields only. */
  lemma FactsFrame(c: Core, k: Canonical, c': Core, k': Canonical)
    requires PublishedFacts(c, k) && CorrectedFacts(c, k)
    requires c'.published == c.published && c'.corrected == c.corrected && c'.lastTrade == c.lastTrade
    requires c'.floor == c.floor && c'.trades == c.trades && c'.lateCorrections == c.lateCorrections
    requires k'.trades == k.trades && k'.corrections == k.corrections
    ensures PublishedFacts(c', k') && CorrectedFacts(c', k')
  {
    forall i | 0 <= i < |k'.corrections| && k'.corrections[i].kind.Unknown? ensures UnknownKnown(k'.corrections[i], c') {
      assert UnknownKnown(k.corrections[i], c);
    }
    assert forall id :: BelowCursor(id, c') == BelowCursor(id, c);
  }

  // ----- agreement of the two passes with the audit -----

  ghost predicate Backed(raw: RawUnion, item: TradeItem) {
    Unbacked(raw, item).None?
  }

  ghost predicate TradesBacked(raw: RawUnion, items: seq<TradeItem>) {
    forall i :: 0 <= i < |items| ==> Backed(raw, items[i])
  }

  ghost predicate CorrectionsBacked(raw: RawUnion, cs: seq<Correction>) {
    forall i :: 0 <= i < |cs| ==> Backed(raw, cs[i].item)
  }

  /** A first unknown correction stays above the floor. */
  ghost predicate ClearsFloor(x: Correction, floor: int) {
    x.kind.Unknown? ==> x.item.id > floor
  }

  ghost predicate AllClearFloor(cs: seq<Correction>, floor: int) {
    forall i :: 0 <= i < |cs| ==> ClearsFloor(cs[i], floor)
  }

  predicate EvidenceRejection(e: Rejection) {
    e.NoEvidence? || e.ConflictingEvidence? || e.DigestAbsent? || e.LineageAbsent?
  }

  lemma {:induction false} TradePassAgrees(raw: RawUnion, items: seq<TradeItem>)
    requires Increasing(items)
    ensures
      var r := TradePass(raw, items);
      && (r.Ok? <==> TradesBacked(raw, items))
      && (r.Ok? ==> r.value == AsMap(items))
      && (r.Err? ==> EvidenceRejection(r.error))
    ensures forall id :: id in AsMap(items) ==> exists i :: 0 <= i < |items| && items[i].id == id
  {
    hide Unbacked;
    if items != [] {
      var last := |items| - 1;
      TradePassAgrees(raw, items[..last]);
      UnbackedKinds(raw, items[last]);
      assert items[last].id !in AsMap(items[..last]);
      assert TradesBacked(raw, items) <==> TradesBacked(raw, items[..last]) && Backed(raw, items[last]) by {
        if TradesBacked(raw, items) {
          forall i | 0 <= i < last ensures Backed(raw, items[..last][i]) {
            assert Backed(raw, items[i]);
          }
        }
        if TradesBacked(raw, items[..last]) && Backed(raw, items[last]) {
          forall i | 0 <= i < |items| ensures Backed(raw, items[i]) {
            if i < last {
              assert Backed(raw, items[..last][i]);
            }
          }
        }
      }
    }
  }

  lemma UnbackedKinds(raw: RawUnion, item: TradeItem)
    ensures Unbacked(raw, item).Some? ==> EvidenceRejection(Unbacked(raw, item).value)
  {
  }

  /** A dictionary that holds the published trades, and besides them only later ones. */
  ghost predicate Extends(base: map<int, Digest>, c: Core) {
    && (forall id :: id in c.published ==> id in base && base[id] == c.published[id])
    && (forall id :: id in base && id !in c.published ==> !BelowCursor(id, c))
  }

  /** The correction pass over the complete trades meets every correction as the audit met it. */
  ghost predicate PassAgrees(raw: RawUnion, base: map<int, Digest>, c: Core, k: Canonical, floor: int) {
    var r := CorrectionPass(raw, base, k.corrections, floor, true);
    && (r.Ok? <==> CorrectionsBacked(raw, k.corrections) && AllClearFloor(k.corrections, floor))
    && (r.Ok? ==> r.value == base + c.corrected)
    && (r.Err? ==> EvidenceRejection(r.error) || (r.error.BelowFloor? && !AllClearFloor(k.corrections, floor)))
    && (r.Err? && CorrectionsBacked(raw, k.corrections) ==> r.error.BelowFloor?)
  }

  lemma {:induction false} CorrectionsAgree(raw: RawUnion, base: map<int, Digest>, ps: seq<Payload>, floor: int)
    requires CoreRun(ps).Some? && Collect(ps).Some? && Extends(base, CoreRun(ps).value)
    ensures PassAgrees(raw, base, CoreRun(ps).value, Collect(ps).value, floor)
  {
    hide CoreStep, CollectStep, PassAgrees, PublishedFacts, FloorFacts, CorrectedFacts, Extends;
    if ps == [] {
      NothingPasses(raw, base, floor);
    } else {
      var last := |ps| - 1;
      CollectAgrees(ps[..last]);
      var c, k := CoreRun(ps[..last]).value, Collect(ps[..last]).value;
      ExtendsEarlier(base, c, k, ps[last]);
      CorrectionsAgree(raw, base, ps[..last], floor);
      if ps[last].TradeCorrection? {
        OneCorrection(raw, base, c, k, ps[last], floor);
      } else {
        OthersKeepCorrections(raw, base, c, k, ps[last], floor);
      }
    }
  }

  lemma NothingPasses(raw: RawUnion, base: map<int, Digest>, floor: int)
    ensures PassAgrees(raw, base, FRESH_CORE, NOTHING, floor)
  {
  }

  lemma ExtendsEarlier(base: map<int, Digest>, c: Core, k: Canonical, p: Payload)
    requires CoreStep(c, p).Some? && Extends(base, CoreStep(c, p).value) && PublishedFacts(c, k)
    ensures Extends(base, c)
  {
    TradeFieldsKept(c, p);
    if p.TradeObservation? {
      forall id | id in base && id !in c.published ensures !BelowCursor(id, c) {
        assert id != p.id.value ==> !BelowCursor(id, CoreStep(c, p).value);
      }
    } else {
      assert forall id :: BelowCursor(id, c) == BelowCursor(id, CoreStep(c, p).value);
    }
  }

  /** Which records touch the trade fields. */
  lemma TradeFieldsKept(c: Core, p: Payload)
    requires CoreStep(c, p).Some?
    ensures
      var next := CoreStep(c, p).value;
      && (!p.TradeObservation? ==> next.published == c.published && next.lastTrade == c.lastTrade)
      && (!p.TradeCorrection? ==> next.corrected == c.corrected)
  {
    match p
    case TradeObservation(_, _, _) =>
    case TradeCorrection(_, _, _, _) =>
    case DepthObservation(_, _, _, _, _) =>
    case _ =>
  }

  lemma OthersKeepCorrections(raw: RawUnion, base: map<int, Digest>, c: Core, k: Canonical, p: Payload, floor: int)
    requires CoreStep(c, p).Some? && CollectStep(k, p).Some? && !p.TradeCorrection?
    requires PassAgrees(raw, base, c, k, floor)
    ensures PassAgrees(raw, base, CoreStep(c, p).value, CollectStep(k, p).value, floor)
  {
    hide CoreStep, CorrectionPass, CorrectionsBacked, AllClearFloor;
    TradeFieldsKept(c, p);
    assert CollectStep(k, p).value.corrections == k.corrections;
  }

  lemma {:induction false} Appended(raw: RawUnion, cs: seq<Correction>, x: Correction, floor: int)
    ensures CorrectionsBacked(raw, cs + [x]) <==> CorrectionsBacked(raw, cs) && Backed(raw, x.item)
    ensures AllClearFloor(cs + [x], floor) <==> AllClearFloor(cs, floor) && ClearsFloor(x, floor)
  {
    hide Backed, ClearsFloor;
    var all := cs + [x];
    assert all[|cs|] == x;
    if CorrectionsBacked(raw, all) {
      forall i | 0 <= i < |cs| ensures Backed(raw, cs[i].item) {
        assert Backed(raw, all[i].item);
      }
    }
    if AllClearFloor(all, floor) {
      forall i | 0 <= i < |cs| ensures ClearsFloor(cs[i], floor) {
        assert ClearsFloor(all[i], floor);
      }
    }
  }

  /** What the audit checked of an accepted correction. */
  lemma CorrectionChecked(c: Core, p: Payload)
    requires CoreStep(c, p).Some? && p.TradeCorrection?
    ensures p.id.Some? && p.observation.Some? && p.record.Some? && !p.kind.Unclassified?
    ensures
      var after, id := CoreStep(c, p).value.corrected, p.id.value;
      && BelowCursor(id, c)
      && (p.kind.Unknown? ==> id !in c.published && id !in c.corrected && after == c.corrected[id := p.observation.value])
      && (p.kind.Duplicate? ==> after == c.corrected)
      && (p.kind.Duplicate? && id in c.published ==> c.published[id] == p.observation.value)
      && (p.kind.Duplicate? && id !in c.published ==> id in c.corrected && c.corrected[id] == p.observation.value)
  {
  }

  /** Where the audit accepts a correction, the completed dictionary answers the same way. */
  lemma CorrectionIsMet(base: map<int, Digest>, c: Core, k: Canonical, p: Payload)
    requires CoreStep(c, p).Some? && p.TradeCorrection? && Extends(base, c) && CorrectedFacts(c, k)
    ensures p.id.Some? && p.observation.Some? && p.record.Some? && !p.kind.Unclassified?
    ensures
      var known, after, id := base + c.corrected, CoreStep(c, p).value.corrected, p.id.value;
      && (p.kind.Unknown? ==> id !in known && known[id := p.observation.value] == base + after)
      && (p.kind.Duplicate? ==> id in known && known[id] == p.observation.value && after == c.corrected)
  {
    hide CoreStep, BelowCursor, UnknownKnown;
    CorrectionChecked(c, p);
    var id := p.id.value;
    assert id in base ==> id in c.published;
    assert id in c.published ==> id in base && id !in c.corrected;
    MergeUpdate(base, c.corrected, id, p.observation.value);
  }

  lemma MergeUpdate(base: map<int, Digest>, more: map<int, Digest>, id: int, observation: Digest)
    ensures (base + more)[id := observation] == base + more[id := observation]
  {
  }

  lemma OneCorrection(raw: RawUnion, base: map<int, Digest>, c: Core, k: Canonical, p: Payload, floor: int)
    requires CoreStep(c, p).Some? && CollectStep(k, p).Some? && p.TradeCorrection?
    requires Extends(base, c) && CorrectedFacts(c, k) && PassAgrees(raw, base, c, k, floor)
    ensures PassAgrees(raw, base, CoreStep(c, p).value, CollectStep(k, p).value, floor)
  {
    hide Unbacked, CorrectionsBacked, AllClearFloor, CoreStep, CollectStep, Extends, CorrectedFacts, EvidenceRejection, CorrectionPass;
    CorrectionIsMet(base, c, k, p);
    var x := Correction(TradeItem(p.id.value, p.observation.value, p.record.value), p.kind);
    CorrectionCollected(k, p, x);
    Appended(raw, k.corrections, x, floor);
    UnbackedKinds(raw, x.item);
    PassAppended(raw, base, k.corrections, x, floor);
  }

  lemma CorrectionCollected(k: Canonical, p: Payload, x: Correction)
    requires p.TradeCorrection? && p.id.Some? && p.observation.Some? && p.record.Some?
    requires x == Correction(TradeItem(p.id.value, p.observation.value, p.record.value), p.kind)
    ensures CollectStep(k, p).Some? && CollectStep(k, p).value.corrections == k.corrections + [x]
  {
  }

  lemma PassAppended(raw: RawUnion, base: map<int, Digest>, cs: seq<Correction>, x: Correction, floor: int)
    ensures
      var before := CorrectionPass(raw, base, cs, floor, true);
      CorrectionPass(raw, base, cs + [x], floor, true) ==
      (if before.Err? then before else CorrectionItemStep(raw, before.value, x, floor, true))
  {
    hide CorrectionItemStep;
    assert (cs + [x])[..|cs|] == cs;
  }

  // ----- main results -----

  /** Published trades and first unknown corrections, as the online audit knows them. */
  ghost function Known(digest: Body -> Digest, segments: seq<Segment>): map<int, Digest>
    requires RunSet(digest, segments).Some?
  {
    RunSet(digest, segments).value.core.published + RunSet(digest, segments).value.core.corrected
  }

  /** The reconstruction of an accepted set, for any raw capture. */
  lemma {:induction false} ReconstructionOfAccepted(digest: Body -> Digest, segments: seq<Segment>, incremental: bool, raw: RawUnion)
    requires Accepted(digest, segments, incremental) && Collect(Flatten(segments)).Some?
    ensures
      var c, k := RunSet(digest, segments).value.core, Collect(Flatten(segments)).value;
      var r := Reconstruct(k, raw);
      var clear := AllClearFloor(k.corrections, OrZero(k.floor));
      && PublishedFacts(c, k) && CorrectedFacts(c, k) && FloorFacts(c, k)
      && (r.Ok? <==> TradesBacked(raw, k.trades) && CorrectionsBacked(raw, k.corrections) && clear)
      && (r.Ok? ==> r.value == Known(digest, segments))
      && (r.Err? ==> EvidenceRejection(r.error) || (r.error.BelowFloor? && !clear))
      && (TradesBacked(raw, k.trades) && CorrectionsBacked(raw, k.corrections) && !clear ==> r == Err(BelowFloor))
  {
    hide RunSet, CoreRun, Collect, TradePass, CorrectionPass, TradesBacked, CorrectionsBacked, AllClearFloor, CorrectedFacts;
    var ps := Flatten(segments);
    SetIsOneRun(digest, segments);
    CollectAgrees(ps);
    var c, k := CoreRun(ps).value, Collect(ps).value;
    TradePassAgrees(raw, k.trades);
    CorrectionsAgree(raw, c.published, ps, OrZero(k.floor));
  }

  /**
    Online and offline classification agree: on every accepted set the offline pass never finds a
    duplicate trade, a contradicting duplicate or unknown correction or an unclassified one.  It
    succeeds exactly when the raw capture backs every item, no first unknown correction is at or
    below the offline floor, and the identities are those of the raw window; its count is then
    trades plus unknown corrections, within the bounds the service checks.  With everything
    backed, the floor rejection is returned exactly when some correction does not clear the floor.
   */
  lemma {:induction false} OfflineVerdict(digest: Body -> Digest, segments: seq<Segment>, incremental: bool, raw: RawUnion, boundToLast: bool)
    requires Accepted(digest, segments, incremental)
    ensures Collect(Flatten(segments)).Some? <==> AllCollectable(Flatten(segments))
    ensures Collect(Flatten(segments)).Some? ==>
      var c, k := RunSet(digest, segments).value.core, Collect(Flatten(segments)).value;
      var r := Verdict(k, raw, boundToLast);
      var floor := OrZero(k.floor);
      var backed := TradesBacked(raw, k.trades) && CorrectionsBacked(raw, k.corrections);
      && (r.Ok? <==>
            && backed && AllClearFloor(k.corrections, floor)
            && Above(Known(digest, segments), floor) == Window(raw, floor, UpperBound(k, boundToLast)))
      && (r.Err? ==> EvidenceRejection(r.error) || r.error.UnionDiffers? || r.error.BelowFloor?)
      && (r == Err(BelowFloor) ==> !AllClearFloor(k.corrections, floor))
      && (backed && !AllClearFloor(k.corrections, floor) ==> r == Err(BelowFloor))
      && (r.Ok? ==>
            && r.value == c.trades + CountUnknown(k.corrections)
            && c.trades <= r.value <= c.trades + c.lateCorrections)
  {
    hide RunSet, Collect, Reconstruct, TradesBacked, CorrectionsBacked, AllClearFloor, FloorFacts, Above, Window, CoreRun,
         AllCollectable;
    SetIsOneRun(digest, segments);
    CollectsExactly(Flatten(segments));
    if Collect(Flatten(segments)).Some? {
      ReconstructionOfAccepted(digest, segments, incremental, raw);
      var c := RunSet(digest, segments).value.core;
      DisjointSize(c.published, c.corrected);
    }
  }

  lemma DisjointSize(a: map<int, Digest>, b: map<int, Digest>)
    requires forall id :: id in b ==> id !in a
    ensures |a + b| == |a| + |b|
  {
    SizeIsKeys(a);
    SizeIsKeys(b);
    SizeIsKeys(a + b);
    assert (a + b).Keys == a.Keys + b.Keys;
    forall id | id in b.Keys ensures id !in a.Keys {
      assert id in b;
    }
    DisjointSets(a.Keys, b.Keys);
  }

  lemma SizeIsKeys(m: map<int, Digest>)
    ensures |m| == |m.Keys|
  {
  }

  lemma DisjointSets(a: set<int>, b: set<int>)
    requires a !! b
    ensures |a + b| == |a| + |b|
  {
  }

  /** With an integer STARTED floor the offline floor check cannot reject. */
  lemma {:induction false} IntegerFloorNeverRejects(digest: Body -> Digest, segments: seq<Segment>, incremental: bool, raw: RawUnion, boundToLast: bool)
    requires Accepted(digest, segments, incremental) && RunSet(digest, segments).value.core.floor.Some?
    ensures Collect(Flatten(segments)).Some? ==>
      var k := Collect(Flatten(segments)).value;
      var r := Verdict(k, raw, boundToLast);
      && AllClearFloor(k.corrections, OrZero(k.floor))
      && (r.Err? ==> EvidenceRejection(r.error) || r.error.UnionDiffers?)
  {
    hide RunSet, Collect, Verdict, Reconstruct, PublishedFacts;
    if Collect(Flatten(segments)).Some? {
      ReconstructionOfAccepted(digest, segments, incremental, raw);
      var c, k := RunSet(digest, segments).value.core, Collect(Flatten(segments)).value;
      forall i | 0 <= i < |k.corrections| ensures ClearsFloor(k.corrections[i], OrZero(k.floor)) {
        assert k.corrections[i].kind.Unknown? ==> UnknownKnown(k.corrections[i], c);
      }
      OfflineVerdict(digest, segments, incremental, raw, boundToLast);
    }
  }

  /**
    Closed acceptance: the identities known online are exactly the raw ones above the floor, and
    all raw evidence of each carries the digest the journal published.
   */
  lemma {:induction false} ClosedWindowIsRaw(digest: Body -> Digest, segments: seq<Segment>, raw: RawUnion)
    requires Accepted(digest, segments, false) && RunSet(digest, segments).value.core.floor.Some?
    requires Collect(Flatten(segments)).Some? && Verdict(Collect(Flatten(segments)).value, raw, false).Ok?
    ensures
      var known, floor := Known(digest, segments), RunSet(digest, segments).value.core.floor.value;
      && (forall id :: id in known <==> id in raw && id > floor)
      && (forall id, i :: id in known && 0 <= i < |raw[id]| ==> raw[id][i].observation == known[id])
  {
    hide RunSet, Collect, Verdict, Reconstruct;
    var c, k := RunSet(digest, segments).value.core, Collect(Flatten(segments)).value;
    var known, floor := Known(digest, segments), OrZero(k.floor);
    OfflineVerdict(digest, segments, false, raw, false);
    ReconstructionOfAccepted(digest, segments, false, raw);
    assert Above(known, floor) == Window(raw, floor, None);
    forall id ensures id in known <==> id in raw && id > floor {
      assert id in Above(known, floor) <==> id in Window(raw, floor, None);
    }
    ReconstructedIsBacked(k, raw);
    assert MapBacked(raw, known);
    forall id, i | id in known && 0 <= i < |raw[id]| ensures raw[id][i].observation == known[id] {
      assert Carries(raw, id, known[id]);
    }
  }

  /** The raw capture has evidence for the identity, and all of it carries this digest. */
  ghost predicate Carries(raw: RawUnion, id: int, observation: Digest) {
    id in raw && raw[id] != [] && forall i :: 0 <= i < |raw[id]| ==> raw[id][i].observation == observation
  }

  ghost predicate MapBacked(raw: RawUnion, known: map<int, Digest>) {
    forall id :: id in known ==> Carries(raw, id, known[id])
  }

  lemma BackedCarries(raw: RawUnion, item: TradeItem)
    requires Unbacked(raw, item).None?
    ensures Carries(raw, item.id, item.observation)
  {
  }

  lemma {:induction false} TradePassBacked(raw: RawUnion, items: seq<TradeItem>)
    requires TradePass(raw, items).Ok?
    ensures MapBacked(raw, TradePass(raw, items).value)
  {
    hide Unbacked, Carries;
    if items != [] {
      TradePassBacked(raw, items[..|items| - 1]);
      BackedCarries(raw, items[|items| - 1]);
    }
  }

  lemma {:induction false} CorrectionPassBacked(raw: RawUnion, base: map<int, Digest>, cs: seq<Correction>, floor: int, startup: bool)
    requires MapBacked(raw, base) && CorrectionPass(raw, base, cs, floor, startup).Ok?
    ensures MapBacked(raw, CorrectionPass(raw, base, cs, floor, startup).value)
  {
    hide Unbacked, Carries;
    if cs != [] {
      CorrectionPassBacked(raw, base, cs[..|cs| - 1], floor, startup);
      BackedCarries(raw, cs[|cs| - 1].item);
    }
  }

  lemma ReconstructedIsBacked(k: Canonical, raw: RawUnion)
    requires Reconstruct(k, raw).Ok?
    ensures MapBacked(raw, Reconstruct(k, raw).value)
  {
    hide TradePass, CorrectionPass, MapBacked;
    TradePassBacked(raw, k.trades);
    CorrectionPassBacked(raw, TradePass(raw, k.trades).value, k.corrections, OrZero(k.floor), k.startup);
  }
}
