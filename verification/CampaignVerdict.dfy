/**
  The verdict on a whole campaign journal, told from its records: what the closing checks ask of a
  journal whose every record is permitted.
 */
module CampaignVerdict {
  import opened Wrappers
  import opened Streams
  import opened Powers
  import opened Campaign
  import opened CampaignRuns
  import opened CampaignShutdowns
  import opened CampaignHistory
  import opened Coverage

  // ----- names -----

  datatype Slot = Session | DepthName | TradeName

  function Name(gen: Generation, slot: Slot): string {
    match slot
    case Session => gen.sessionId
    case DepthName => gen.depthEpoch
    case TradeName => gen.tradeEpoch
  }

  /** The sessions and epochs of the campaign are all different. */
  predicate NamesDiffer(plan: Plan) {
    forall g, h, a, b :: 0 <= g < plan.Count() && 0 <= h < plan.Count() ==>
      Name(plan.generations[g], a) == Name(plan.generations[h], b) ==> g == h && a == b
  }

  function Place(slot: Slot): (k: nat)
    ensures k < 3
  {
    match slot case Session => 0 case DepthName => 1 case TradeName => 2
  }

  lemma {:induction false} TokenAt(gs: seq<Generation>, g: nat, slot: Slot)
    requires g < |gs|
    ensures |Tokens(gs)| == 3 * |gs| && Tokens(gs)[3 * g + Place(slot)] == Name(gs[g], slot)
  {
    var last := |gs| - 1;
    if last > 0 {
      TokenAt(gs[..last], if g < last then g else 0, slot);
    }
  }

  lemma TokenOf(gs: seq<Generation>, i: nat) returns (g: nat, slot: Slot)
    requires i < |Tokens(gs)|
    ensures g < |gs| && i == 3 * g + Place(slot) && Tokens(gs)[i] == Name(gs[g], slot)
  {
    if gs != [] {
      TokenAt(gs, 0, Session);
    }
    g := i / 3;
    slot := if i % 3 == 0 then Session else if i % 3 == 1 then DepthName else TradeName;
    TokenAt(gs, g, slot);
  }

  /** No token repeats exactly when the names differ. */
  lemma TokensDiffer(plan: Plan)
    ensures NoRepeats(Tokens(plan.generations)) <==> NamesDiffer(plan)
  {
    hide Tokens, Name;
    var gs := plan.generations;
    if NamesDiffer(plan) {
      forall i, j | 0 <= i < j < |Tokens(gs)| ensures Tokens(gs)[i] != Tokens(gs)[j] {
        var g, a := TokenOf(gs, i);
        var h, b := TokenOf(gs, j);
      }
    }
    if NoRepeats(Tokens(gs)) {
      forall g, h, a, b | 0 <= g < |gs| && 0 <= h < |gs| && Name(gs[g], a) == Name(gs[h], b) ensures g == h && a == b {
        TokenAt(gs, g, a);
        TokenAt(gs, h, b);
        var i, j := 3 * g + Place(a), 3 * h + Place(b);
        assert !(i < j) && !(j < i);
      }
    }
  }

  ghost function OfStream(ids: seq<ShutdownId>, stream: StreamKind): set<int> {
    set i | 0 <= i < |ids| && ids[i].stream == stream
  }

  lemma {:induction false} CountStreamMeans(ids: seq<ShutdownId>, stream: StreamKind)
    ensures CountStream(ids, stream) == |OfStream(ids, stream)|
  {
    if ids == [] {
      assert OfStream(ids, stream) == {};
    }
    if ids != [] {
      var last := |ids| - 1;
      CountStreamMeans(ids[..last], stream);
      OfStreamNext(ids, stream);
    }
  }

  lemma OfStreamNext(ids: seq<ShutdownId>, stream: StreamKind)
    requires ids != []
    ensures |OfStream(ids, stream)| == |OfStream(ids[..|ids| - 1], stream)| + if ids[|ids| - 1].stream == stream then 1 else 0
  {
    var last := |ids| - 1;
    var front := OfStream(ids[..last], stream);
    assert OfStream(ids, stream) == if ids[last].stream == stream then front + {last} else front;
  }

  /** The raw shutdown records of one generation: each of its own epoch, no two alike, and as many as declared. */
  ghost predicate RawIsDeclared(gen: Generation) {
    && (forall i, j :: 0 <= i < |gen.rawShutdowns| && 0 <= j < |gen.rawShutdowns| && gen.rawShutdowns[i] == gen.rawShutdowns[j] ==> i == j)
    && (forall id :: id in gen.rawShutdowns ==> id.epoch == if id.stream.Depth? then gen.depthEpoch else gen.tradeEpoch)
    && |OfStream(gen.rawShutdowns, Depth)| == gen.depthShutdowns
    && |OfStream(gen.rawShutdowns, Trade)| == gen.tradeShutdowns
  }

  ghost predicate Declared(plan: Plan) {
    NamesDiffer(plan) && forall g :: 0 <= g < plan.Count() ==> RawIsDeclared(plan.generations[g])
  }

  lemma RawMeans(gen: Generation)
    ensures RawOk(gen) <==> RawIsDeclared(gen)
  {
    hide OfStream, CountStream;
    CountStreamMeans(gen.rawShutdowns, Depth);
    CountStreamMeans(gen.rawShutdowns, Trade);
  }

  /** The identity check passes exactly the plans whose names differ and whose raw records are as declared. */
  lemma {:induction false} IdentitiesMean(plan: Plan)
    ensures IdentitiesOk(plan) <==> Declared(plan)
  {
    hide NamesDiffer, NoRepeats, RawOk, RawIsDeclared;
    TokensDiffer(plan);
    forall g | 0 <= g < plan.Count() ensures RawIsDeclared(plan.generations[g]) <==> RawOk(plan.generations[g]) {
      RawMeans(plan.generations[g]);
    }
    assert Declared(plan) ==> forall g :: 0 <= g < plan.Count() ==> RawOk(plan.generations[g]);
  }

  // ----- the campaign's own records -----

  datatype Boundary = Opening | Preparation | Commit

  predicate Marks(r: JournalRecord, b: Boundary) {
    match b
    case Opening => r.event.CampaignStarted?
    case Preparation => r.event.EvaluationPrepared?
    case Commit => r.event.CampaignCommitted?
  }

  function Counted(st: State, b: Boundary): nat {
    match b
    case Opening => st.startedCount
    case Preparation => st.preparedCount
    case Commit => st.committedCount
  }

  ghost function Positions(rs: seq<JournalRecord>, b: Boundary): set<int> {
    set i | 0 <= i < |rs| && Marks(rs[i], b)
  }

  /** The record at `k` is the one of its boundary. */
  ghost predicate Only(rs: seq<JournalRecord>, b: Boundary, k: int) {
    0 <= k < |rs| && forall i :: 0 <= i < |rs| ==> (Marks(rs[i], b) <==> i == k)
  }

  lemma StepCounts(plan: Plan, st: State, i: nat, r: JournalRecord, b: Boundary)
    requires |st.lives| == plan.Count() && Step(plan, st, i, r).Some?
    ensures
      var st' := Step(plan, st, i, r).value;
      && Counted(st', b) == Counted(st, b) + (if Marks(r, b) then 1 else 0)
      && st'.prepared == (if Marks(r, Preparation) then Some(Mark(i, r.mono)) else st.prepared)
  {
    hide AllowedOn, StepGeneration;
    if r.generation.Some? {
      GenerationCounts(plan, st, i, r, r.generation.value);
    }
  }

  lemma GenerationCounts(plan: Plan, st: State, i: nat, r: JournalRecord, from: nat)
    requires |st.lives| == plan.Count() && from < plan.Count()
    requires StepGeneration(plan, st, i, r.mono, from, r.event).Some?
    ensures
      var st' := StepGeneration(plan, st, i, r.mono, from, r.event).value;
      && st'.startedCount == st.startedCount && st'.preparedCount == st.preparedCount
      && st'.committedCount == st.committedCount && st'.prepared == st.prepared
    ensures forall b :: !Marks(r, b)
  {
    hide StepLaunch, StepStarted, StepTerminal, StepExited, StepDurable, StepNote, StepProof, StepPromoted, StepInitialActive;
    hide StepCandidate;
    match r.event
    case Launched(durationS, source) => LaunchCounts(plan, st, Mark(i, r.mono), from, durationS, source);
    case ShutdownDurable(id) => DurableHolds(plan, st, from, id);
    case ShutdownIgnored(epoch) => NoteHolds(plan, st, from, epoch, true);
    case ShutdownAlreadyPending(epoch) => NoteHolds(plan, st, from, epoch, false);
    case ProcessStarted(process) => StartedHolds(plan, st, Mark(i, r.mono), from, process);
    case ProcessTerminal(complete) => TerminalHolds(plan, st, Mark(i, r.mono), from, complete);
    case GenerationExited(success) => ExitedHolds(plan, st, Mark(i, r.mono), from, success);
    case HandoverProofStarted(predecessor) => ProofHolds(plan, st, i, from, predecessor);
    case HandoverPromoted(predecessor, proof) => PromotedHolds(plan, st, from, predecessor, proof);
    case InitialActiveRegistered => InitialHolds(plan, st, i, from);
    case CandidateRegistered => CandidateHolds(plan, st, i, from);
    case ChildStatus =>
  }

  lemma LaunchCounts(plan: Plan, st: State, mark: Mark, g: nat, durationS: nat, source: Option<Key>)
    requires |st.lives| == plan.Count() && g < plan.Count()
    ensures
      var next := StepLaunch(plan, st, mark, g, durationS, source);
      next.Some? ==>
        && next.value.startedCount == st.startedCount && next.value.preparedCount == st.preparedCount
        && next.value.committedCount == st.committedCount && next.value.prepared == st.prepared
  {
    hide Available, IsEpoch, Consume;
    if source.Some? {
      ConsumeKeepsSlots(st, source.value);
    }
  }

  lemma {:induction false} RunCounts(plan: Plan, rs: seq<JournalRecord>, b: Boundary)
    requires Run(plan, rs).Some?
    ensures Counted(Run(plan, rs).value, b) == |Positions(rs, b)|
  {
    hide Step, Marks, Positions;
    if rs == [] {
      NoPositions(b);
    } else {
      var last := |rs| - 1;
      var front := rs[..last];
      RunCounts(plan, front, b);
      StepCounts(plan, Run(plan, front).value, last, rs[last], b);
      PositionsNext(rs, b);
    }
  }

  lemma NoPositions(b: Boundary)
    ensures Positions([], b) == {}
  {
  }

  lemma PositionsNext(rs: seq<JournalRecord>, b: Boundary)
    requires rs != []
    ensures |Positions(rs, b)| == |Positions(rs[..|rs| - 1], b)| + if Marks(rs[|rs| - 1], b) then 1 else 0
  {
    hide Marks;
    var last := |rs| - 1;
    var front := Positions(rs[..last], b);
    assert Positions(rs, b) == if Marks(rs[last], b) then front + {last} else front;
  }

  lemma {:induction false} RunPrepared(plan: Plan, rs: seq<JournalRecord>, k: nat)
    requires Run(plan, rs).Some? && Only(rs, Preparation, k)
    ensures Run(plan, rs).value.prepared == Some(Mark(k, rs[k].mono))
  {
    hide Step, Marks;
    var last := |rs| - 1;
    var front := rs[..last];
    StepCounts(plan, Run(plan, front).value, last, rs[last], Preparation);
    if k < last {
      RunPrepared(plan, front, k);
    }
  }

  lemma CountsOne(plan: Plan, rs: seq<JournalRecord>, b: Boundary, k: int)
    requires Run(plan, rs).Some? && 0 <= k < |rs|
    ensures Marks(rs[k], b) && Counted(Run(plan, rs).value, b) == 1 <==> Only(rs, b, k)
  {
    hide Run, Marks;
    RunCounts(plan, rs, b);
    var all := Positions(rs, b);
    if Marks(rs[k], b) && |all| == 1 {
      assert k in all && |all - {k}| == 0;
      forall i | 0 <= i < |rs| ensures Marks(rs[i], b) <==> i == k {
        assert i in all && i != k ==> i in all - {k};
      }
    }
    if Only(rs, b, k) {
      assert all == {k};
    }
  }

  // ----- clock readings -----

  function LifeMark(life: Lifecycle, kind: Kind): Option<Mark> {
    match kind
    case Launch => life.launch
    case Start => life.started
    case Terminate => life.terminal
    case Exit => life.exited
    case _ => None
  }

  ghost predicate Reads(mark: Option<Mark>, rs: seq<JournalRecord>, kind: Kind, g: nat) {
    mark.Some? ==>
      && mark.value.record < |rs| && IsOf(rs[mark.value.record], kind, g)
      && mark.value.mono == rs[mark.value.record].mono
  }

  /** Every mark names the record that set it and carries its clock. */
  lemma {:induction false} RunReads(plan: Plan, rs: seq<JournalRecord>, kind: Kind, g: nat)
    requires Run(plan, rs).Some? && g < plan.Count()
    ensures Reads(LifeMark(Run(plan, rs).value.lives[g], kind), rs, kind, g)
  {
    hide Step, IsOf;
    if rs != [] {
      var last := |rs| - 1;
      var front := rs[..last];
      var st := Run(plan, front).value;
      RunReads(plan, front, kind, g);
      StepLives(plan, st, last, rs[last]);
      StepHolds(plan, st, last, rs[last], kind, g);
    }
  }

  /** The clock of the record. */
  ghost function Reading(rs: seq<JournalRecord>, kind: Kind, g: nat): nat {
    if Happened(rs, kind, g) then
      var i :| 0 <= i < |rs| && IsOf(rs[i], kind, g);
      rs[i].mono
    else 0
  }

  lemma ReadingMeans(plan: Plan, rs: seq<JournalRecord>, kind: Kind, g: nat)
    requires Run(plan, rs).Some? && g < plan.Count()
    requires LifeMark(Run(plan, rs).value.lives[g], kind).Some?
    ensures Reading(rs, kind, g) == LifeMark(Run(plan, rs).value.lives[g], kind).value.mono
    ensures
      var k := LifeMark(Run(plan, rs).value.lives[g], kind).value.record;
      k < |rs| && IsOf(rs[k], kind, g)
  {
    hide Run, IsOf;
    RunReads(plan, rs, kind, g);
    RunHolds(plan, rs, kind, g);
    var k := LifeMark(Run(plan, rs).value.lives[g], kind).value.record;
    assert IsOf(rs[k], kind, g);
    var i :| 0 <= i < |rs| && IsOf(rs[i], kind, g) && Reading(rs, kind, g) == rs[i].mono;
    assert !(i < k) && !(k < i);
  }

  // ----- the verdict -----

  ghost function DeclaredWindow(plan: Plan, rs: seq<JournalRecord>, g: nat): GenerationWindow
    requires g < plan.Count()
  {
    GenerationWindow(Reading(rs, Start, g), plan.generations[g].durationS)
  }

  ghost function DeclaredWindows(plan: Plan, rs: seq<JournalRecord>): seq<GenerationWindow> {
    seq(plan.Count(), g requires 0 <= g < plan.Count() => DeclaredWindow(plan, rs, g))
  }

  /** The generation starts before the one before it ends. */
  ghost predicate Overlaps(rs: seq<JournalRecord>, g: nat)
    requires g > 0
  {
    Reading(rs, Start, g) < Reading(rs, Terminate, g - 1) && Reading(rs, Start, g) < Reading(rs, Exit, g - 1)
  }

  /** The child's end and its exit come after the deadline and before the preparation. */
  ghost predicate EndsInTime(rs: seq<JournalRecord>, g: nat, deadline: nat, prepared: nat) {
    deadline <= Reading(rs, Terminate, g) <= prepared && deadline <= Reading(rs, Exit, g) <= prepared
  }

  ghost predicate InTime(plan: Plan, rs: seq<JournalRecord>)
    requires plan.Count() > 0 && |rs| >= 3
  {
    var deadline := plan.totalDurationS * 1_000_000_000;
    && deadline <= U64_MAX
    && (forall g :: 0 < g < plan.Count() ==> Overlaps(rs, g))
    && (forall g :: 0 <= g < plan.Count() ==> Continues(DeclaredWindows(plan, rs), g))
    && LastsTo(DeclaredWindows(plan, rs), plan.Count(), deadline)
    && EndsInTime(rs, plan.Count() - 1, deadline, rs[|rs| - 2].mono)
  }

  /** Every announcement was spent, and the journal reports the raw shutdown records as declared. */
  ghost predicate Settled(plan: Plan, rs: seq<JournalRecord>) {
    && (forall key: Key :: Announced(rs, key) == Disposed(rs, key))
    && (forall g: nat, id :: g < plan.Count() && id in plan.generations[g].rawShutdowns ==> ReportedBy(rs, g, id))
    && (forall g: nat :: g < plan.Count() ==>
          && ReportedStream(rs, g, Depth) == plan.generations[g].depthShutdowns
          && ReportedStream(rs, g, Trade) == plan.generations[g].tradeShutdowns)
  }

  /** Every generation ended, the last one leads, and proofs are of handovers only. */
  ghost predicate AllEnded(plan: Plan, rs: seq<JournalRecord>)
    requires plan.Count() > 0
  {
    && (forall g: nat :: g < plan.Count() ==> Happened(rs, Exit, g))
    && Leads(rs, plan.Count() - 1)
    && (forall g: nat :: g in plan.proofs ==> 0 < g < plan.Count())
  }

  ghost predicate Bounded(rs: seq<JournalRecord>) {
    |rs| >= 3 && Only(rs, Opening, 0) && Only(rs, Preparation, |rs| - 2) && Only(rs, Commit, |rs| - 1)
  }

  ghost predicate Concluded(plan: Plan, rs: seq<JournalRecord>) {
    && plan.Count() > 0 && Declared(plan) && Bounded(rs)
    && AllEnded(plan, rs) && Settled(plan, rs) && InTime(plan, rs)
  }

  lemma BoundedMeans(plan: Plan, rs: seq<JournalRecord>)
    requires Run(plan, rs).Some?
    ensures
      var st := Run(plan, rs).value;
      Bounded(rs) <==> Terminals(plan, rs) && st.startedCount == 1 && st.preparedCount == 1 && st.committedCount == 1
  {
    hide Run, PermittedOf, Only, OfCampaign;
    if |rs| >= 3 {
      CountsOne(plan, rs, Opening, 0);
      CountsOne(plan, rs, Preparation, |rs| - 2);
      CountsOne(plan, rs, Commit, |rs| - 1);
      RunsExactly(plan, rs);
      BoundaryIsTerminal(plan, rs[..0], rs[0]);
      BoundaryIsTerminal(plan, rs[..|rs| - 2], rs[|rs| - 2]);
      BoundaryIsTerminal(plan, rs[..|rs| - 1], rs[|rs| - 1]);
    }
  }

  /** A permitted boundary record has the scope and the identity of the campaign. */
  lemma BoundaryIsTerminal(plan: Plan, rs: seq<JournalRecord>, r: JournalRecord)
    requires Permitted(plan, rs, r)
    ensures Marks(r, Opening) <==> IsTerminal(r, CampaignStarted(plan.campaignId, plan.startupDigest))
    ensures Marks(r, Preparation) <==> IsTerminal(r, EvaluationPrepared)
    ensures Marks(r, Commit) <==> IsTerminal(r, CampaignCommitted("campaign.json", plan.manifestDigest))
  {
    hide MayLaunch, MayStart, MayTerminate, MayAnnounce, MayNote, MayProve, MayPromote, Running, Leads, Happened;
  }

  lemma AllEndedMeans(plan: Plan, rs: seq<JournalRecord>)
    requires Run(plan, rs).Some? && plan.Count() > 0
    ensures
      var st := Run(plan, rs).value;
      LifecycleComplete(plan, st) <==>
      AllEnded(plan, rs) && st.startedCount == 1 && st.preparedCount == 1 && st.committedCount == 1
  {
    hide Run, Happened, Leads, Inv;
    var st := Run(plan, rs).value;
    RunKeepsInv(plan, rs);
    ActiveMeans(plan, rs, plan.Count() - 1);
    forall g: nat | g < plan.Count() ensures Happened(rs, Exit, g) <==> st.lives[g].exited.Some? {
      RunHolds(plan, rs, Exit, g);
    }
    ExitedIsComplete(plan, st, |rs|);
    if st.active == Some(plan.Count() - 1) {
      LastLeads(plan, st, |rs|);
    }
  }

  lemma ExitedIsComplete(plan: Plan, st: State, n: nat)
    requires Inv(plan, st, n)
    ensures AllComplete(st) <==> forall g: nat :: g < plan.Count() ==> st.lives[g].exited.Some?
  {
    hide Promotions, NeighboursAt, Frontier, Slots;
    if forall g: nat :: g < plan.Count() ==> st.lives[g].exited.Some? {
      forall g | 0 <= g < |st.lives|
        ensures st.lives[g].launch.Some? && st.lives[g].started.Some? && st.lives[g].terminal.Some? && st.lives[g].exited.Some?
      {
        assert LifeOrdered(st.lives[g], n);
      }
    }
  }

  lemma LastLeads(plan: Plan, st: State, n: nat)
    requires Inv(plan, st, n) && plan.Count() > 0 && st.active == Some(plan.Count() - 1)
    ensures st.initialActive && st.pending.None? && st.warmed.None?
    ensures forall g :: 0 < g < plan.Count() ==> g in st.proofStarted && g in st.promoted
    ensures forall g :: g in st.proofStarted ==> 0 < g < plan.Count()
    ensures forall g :: g in st.promoted ==> 0 < g < plan.Count()
    ensures forall g :: 0 < g < plan.Count() && g in plan.proofs ==> g in st.promoted && st.promoted[g] == plan.proofs[g]
  {
    hide Ordered;
  }

  lemma SettledMeans(plan: Plan, rs: seq<JournalRecord>)
    requires Run(plan, rs).Some?
    ensures ShutdownsSettled(plan, Run(plan, rs).value) <==> Settled(plan, rs)
  {
    hide Run, ReportedBy;
    var st := Run(plan, rs).value;
    forall key: Key ensures Announced(rs, key) == Disposed(rs, key) <==> Available(st, key) == 0 {
      RunBalances(plan, rs, key);
    }
    forall g: nat, stream | g < plan.Count() ensures Observed(st, (g, stream)) == ReportedStream(rs, g, stream) {
      RunObserves(plan, rs, g, stream);
    }
    forall g: nat, id | g < plan.Count() ensures (g, id) in st.observedIds <==> ReportedBy(rs, g, id) {
      RunObserves(plan, rs, g, Depth);
    }
    AvailableMeans(st);
  }

  lemma AvailableMeans(st: State)
    ensures (forall key :: key in st.available ==> st.available[key] == 0) <==> forall key: Key :: Available(st, key) == 0
  {
    if forall key: Key :: Available(st, key) == 0 {
      forall key | key in st.available ensures st.available[key] == 0 {
        assert Available(st, key) == 0;
      }
    }
  }

  lemma WindowsAreDeclared(plan: Plan, rs: seq<JournalRecord>)
    requires Run(plan, rs).Some? && AllComplete(Run(plan, rs).value)
    ensures Windows(plan, Run(plan, rs).value) == DeclaredWindows(plan, rs)
  {
    hide Run, Reading;
    var st := Run(plan, rs).value;
    forall g | 0 <= g < plan.Count() ensures Window(plan, st, g) == DeclaredWindow(plan, rs, g) {
      ReadingMeans(plan, rs, Start, g);
    }
  }

  lemma OverlapMeans(plan: Plan, rs: seq<JournalRecord>, g: nat)
    requires Run(plan, rs).Some? && AllComplete(Run(plan, rs).value) && 0 < g < plan.Count()
    ensures Overlaps(rs, g) <==> StartsInTime(Run(plan, rs).value, g)
  {
    hide Run, Reading;
    ReadingMeans(plan, rs, Start, g);
    ReadingMeans(plan, rs, Terminate, g - 1);
    ReadingMeans(plan, rs, Exit, g - 1);
  }

  /** A record of a generation lies before the last two records. */
  lemma BeforeTheEnd(plan: Plan, rs: seq<JournalRecord>, kind: Kind, g: nat, k: nat)
    requires Terminals(plan, rs) && k < |rs| && IsOf(rs[k], kind, g)
    ensures k < |rs| - 2
  {
    assert rs[|rs| - 1].generation.None? && rs[|rs| - 2].generation.None?;
  }

  lemma EndMeans(plan: Plan, rs: seq<JournalRecord>, deadline: nat)
    requires Run(plan, rs).Some? && AllComplete(Run(plan, rs).value) && Bounded(rs) && Terminals(plan, rs) && plan.Count() > 0
    ensures
      var st, last := Run(plan, rs).value, plan.Count() - 1;
      var final := st.lives[last];
      && EndsInTime(rs, last, deadline, rs[|rs| - 2].mono) ==
         (&& deadline <= final.terminal.value.mono && deadline <= final.exited.value.mono
          && st.prepared.Some? && final.terminal.value.mono <= st.prepared.value.mono
          && final.exited.value.mono <= st.prepared.value.mono)
      && st.prepared.Some? && final.terminal.value.record < st.prepared.value.record
      && final.exited.value.record < st.prepared.value.record
  {
    hide Run, Reading, Only, IsOf, Terminals;
    var last := plan.Count() - 1;
    RunPrepared(plan, rs, |rs| - 2);
    ReadingMeans(plan, rs, Terminate, last);
    ReadingMeans(plan, rs, Exit, last);
    BeforeTheEnd(plan, rs, Terminate, last, Run(plan, rs).value.lives[last].terminal.value.record);
    BeforeTheEnd(plan, rs, Exit, last, Run(plan, rs).value.lives[last].exited.value.record);
  }

  lemma FirstStartsInTime(plan: Plan, rs: seq<JournalRecord>)
    requires Run(plan, rs).Some? && AllComplete(Run(plan, rs).value) && plan.Count() > 0
    ensures Run(plan, rs).value.lives[0].started.value.mono <= 30_000_000_000
  {
    hide Run, Permitted;
    RunReads(plan, rs, Start, 0);
    RunsExactly(plan, rs);
    var k := Run(plan, rs).value.lives[0].started.value.record;
    PermittedStart(plan, rs[..k], rs[k]);
  }

  lemma PermittedStart(plan: Plan, rs: seq<JournalRecord>, r: JournalRecord)
    requires Permitted(plan, rs, r) && IsOf(r, Start, 0)
    ensures r.mono <= 30_000_000_000
  {
    hide Happened;
  }

  lemma TimingMeans(plan: Plan, rs: seq<JournalRecord>)
    requires Run(plan, rs).Some? && AllComplete(Run(plan, rs).value) && Bounded(rs) && Terminals(plan, rs) && plan.Count() > 0
    ensures TimingOk(plan, Run(plan, rs).value) <==> InTime(plan, rs)
  {
    hide Run, Bounded, Terminals, GenerationSweep, LastsTo, Continues, Overlaps, StartsInTime, EndsInTime;
    var st := Run(plan, rs).value;
    EndMeans(plan, rs, plan.totalDurationS * 1_000_000_000);
    FirstStartsInTime(plan, rs);
    WindowsAreDeclared(plan, rs);
    GenerationSweepMeans(DeclaredWindows(plan, rs), plan.totalDurationS * 1_000_000_000);
    forall g | 0 < g < plan.Count() ensures Overlaps(rs, g) <==> StartsInTime(st, g) {
      OverlapMeans(plan, rs, g);
    }
    assert |DeclaredWindows(plan, rs)| == plan.Count();
    assert plan.totalDurationS <= U64_MAX / SECOND_NS <==> plan.totalDurationS * 1_000_000_000 <= U64_MAX;
  }

  /**
    A journal verifies exactly when every record is permitted by the records before it and the
    journal as a whole is concluded.
   */
  lemma {:induction false} VerdictIsExact(plan: Plan, rs: seq<JournalRecord>)
    ensures
      Accepted(plan, rs) <==>
      (forall i :: 0 <= i < |rs| ==> Permitted(plan, rs[..i], rs[i])) && Concluded(plan, rs)
  {
    hide Run, Permitted, Declared, IdentitiesOk, Settled, ShutdownsSettled, InTime, Bounded, Terminals, TimingOk, AllEnded;
    IdentitiesMean(plan);
    RunsExactly(plan, rs);
    if Run(plan, rs).Some? && plan.Count() > 0 {
      BoundedMeans(plan, rs);
      AllEndedMeans(plan, rs);
      SettledMeans(plan, rs);
      if LifecycleComplete(plan, Run(plan, rs).value) && Bounded(rs) {
        TimingMeans(plan, rs);
      }
    }
  }
}
