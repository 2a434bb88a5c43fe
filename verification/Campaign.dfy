/**
  The campaign journal: an automaton over launch, lifecycle, handover and shutdown records that
  moves publication from generation to generation.
 */
module Campaign {
  import opened Wrappers
  import opened Streams
  import opened Powers
  import opened Coverage
  import DepthContinuity

  datatype ShutdownId = ShutdownId(
    stream: StreamKind,
    epoch: string,
    segmentIndex: nat,
    frameIndex: nat,
    receiveMonoNs: nat,
    recordCount: nat,
    throughOffset: nat,
    lastDigest: string)

  datatype Generation = Generation(
    sessionId: string,
    symbol: string,
    startupDigest: string,
    depthEpoch: string,
    tradeEpoch: string,
    durationS: nat,
    depthShutdowns: nat,
    tradeShutdowns: nat,
    rawShutdowns: seq<ShutdownId>)
  {
    function Epoch(stream: StreamKind): string {
      if stream.Depth? then depthEpoch else tradeEpoch
    }
  }

  /**
    What the manifests declare: identities of the campaign, the generations, the proof digest of
    each handover by its successor, and the duration.
   */
  datatype Plan = Plan(
    campaignId: string,
    startupDigest: string,
    manifestDigest: string,
    generations: seq<Generation>,
    proofs: map<nat, string>,
    totalDurationS: nat)
  {
    function Count(): nat { |generations| }
  }

  datatype Event =
    | CampaignStarted(campaignId: string, startupDigest: string)
    | EvaluationPrepared
    | CampaignCommitted(manifestFile: string, manifestDigest: string)
    | CampaignFailed
    | DisconnectFailClosed
    | ShutdownDurable(id: ShutdownId)
    | Launched(durationS: nat, source: Option<(nat, string)>)
    | ProcessStarted(process: ProcessStart)
    | ProcessTerminal(complete: bool)
    | GenerationExited(success: bool)
    | HandoverProofStarted(predecessor: nat)
    | HandoverPromoted(predecessor: nat, proof: string)
    | InitialActiveRegistered
    | CandidateRegistered
    | ShutdownIgnored(epoch: string)
    | ShutdownAlreadyPending(epoch: string)
    | ChildStatus
    | UnexpectedPayload

  /** What a child says of itself; `inSession` tells that its directory is the session's own. */
  datatype ProcessStart = ProcessStart(
    generation: nat,
    symbol: string,
    specRevision: string,
    startupDigest: string,
    processId: nat,
    inSession: bool)

  datatype Channel = CampaignChannel | ChildStdout | ChildStderr | Supervisor | UnknownChannel

  datatype JournalRecord = JournalRecord(
    mono: nat,
    channel: Channel,
    generation: Option<nat>,
    session: Option<string>,
    event: Event)

  const SPEC_REVISION := "976cc580553890e92031b77306147c0ed1de5a46"

  datatype Mark = Mark(record: nat, mono: nat)

  datatype Lifecycle = Lifecycle(
    launch: Option<Mark>,
    started: Option<Mark>,
    terminal: Option<Mark>,
    exited: Option<Mark>)

  datatype State = State(
    lives: seq<Lifecycle>,
    active: Option<nat>,
    pending: Option<nat>,
    warmed: Option<nat>,
    initialActive: bool,
    registered: set<nat>,
    proofStarted: set<nat>,
    promoted: map<nat, string>,
    available: map<(nat, string), nat>,
    observed: map<(nat, StreamKind), nat>,
    observedIds: set<(nat, ShutdownId)>,
    startedCount: nat,
    preparedCount: nat,
    committedCount: nat,
    prepared: Option<Mark>)

  function Initial(plan: Plan): State {
    State(seq(plan.Count(), _ => Lifecycle(None, None, None, None)), None, None, None, false, {}, {}, map[],
          map[], map[], {}, 0, 0, 0, None)
  }

  /** The mark was set by an earlier record. */
  predicate Past(mark: Option<Mark>, i: nat) {
    mark.Some? && mark.value.record < i
  }

  function Available(st: State, key: (nat, string)): nat {
    if key in st.available then st.available[key] else 0
  }

  function Observed(st: State, key: (nat, StreamKind)): nat {
    if key in st.observed then st.observed[key] else 0
  }

  predicate IsEpoch(plan: Plan, g: nat, epoch: string)
    requires g < plan.Count()
  {
    epoch == plan.generations[g].depthEpoch || epoch == plan.generations[g].tradeEpoch
  }

  /** Events that the child process writes. */
  predicate FromChild(e: Event) {
    e.ProcessStarted? || e.ChildStatus? || e.ShutdownDurable? || e.ProcessTerminal?
  }

  /** The channel on which each event may be written. */
  predicate AllowedOn(channel: Channel, e: Event) {
    match channel
    case ChildStdout => FromChild(e)
    case CampaignChannel =>
      e.CampaignStarted? || e.Launched? || e.GenerationExited? || e.HandoverProofStarted?
      || e.EvaluationPrepared? || e.CampaignCommitted? || e.CampaignFailed?
    case Supervisor =>
      e.InitialActiveRegistered? || e.CandidateRegistered? || e.HandoverPromoted?
      || e.ShutdownIgnored? || e.ShutdownAlreadyPending? || e.DisconnectFailClosed?
    case _ => false
  }

  /** The record is on its channel, and a child record names the session of its generation. */
  predicate Admitted(plan: Plan, r: JournalRecord) {
    && AllowedOn(r.channel, r.event)
    && (r.generation.Some? ==> r.generation.value < plan.Count())
    && (FromChild(r.event) ==> r.generation.Some? && r.session == Some(plan.generations[r.generation.value].sessionId))
    && (r.event.CampaignStarted? ==> r.event == CampaignStarted(plan.campaignId, plan.startupDigest))
    && (r.event.CampaignCommitted? ==> r.event == CampaignCommitted("campaign.json", plan.manifestDigest))
  }

  // ----- one record -----

  function Consume(st: State, key: (nat, string)): Option<State> {
    if Available(st, key) == 0 then None
    else Some(st.(available := st.available[key := Available(st, key) - 1]))
  }

  function StepLaunch(plan: Plan, st: State, mark: Mark, g: nat, durationS: nat, source: Option<(nat, string)>): Option<State>
    requires |st.lives| == plan.Count() && g < plan.Count()
  {
    var immediate := g != 0 && st.active == Some(g - 1) && st.pending.None? && st.warmed.None?;
    var warmAhead := source.None? && g >= 2 && st.active == Some(g - 2) && st.pending == Some(g - 1)
                     && st.warmed.None?;
    if st.lives[g].launch.Some? || durationS != plan.generations[g].durationS then None
    else if g == 0 && (source.Some? || st.active.Some? || st.pending.Some? || st.warmed.Some?) then None
    else if g > 0 && !immediate && !warmAhead then None
    else
      var paid :=
        if source.None? then Some(st)
        else if source.value.0 + 1 != g || source.value.1 == "" then None
        else if st.lives[source.value.0].terminal.Some? || st.lives[source.value.0].exited.Some? then None
        else if st.active != Some(source.value.0) || !IsEpoch(plan, source.value.0, source.value.1) then None
        else Consume(st, source.value);
      if paid.None? then None
      else
        Some(paid.value.(
               lives := st.lives[g := st.lives[g].(launch := Some(mark))],
               warmed := if g != 0 && warmAhead then Some(g) else st.warmed,
               pending := if g != 0 && !warmAhead then Some(g) else st.pending))
  }

  /** The child started is the one the plan expects. */
  predicate IsExpected(plan: Plan, g: nat, process: ProcessStart)
    requires g < plan.Count()
  {
    && process.generation == g && process.symbol == plan.generations[g].symbol
    && process.specRevision == SPEC_REVISION && process.startupDigest == plan.generations[g].startupDigest
    && process.processId != 0 && process.inSession
  }

  function StepStarted(plan: Plan, st: State, mark: Mark, g: nat, process: ProcessStart): Option<State>
    requires |st.lives| == plan.Count() && g < plan.Count()
  {
    if st.lives[g].started.Some? || !Past(st.lives[g].launch, mark.record) || !IsExpected(plan, g, process) then None
    else if g == 0 && mark.mono > DepthContinuity.STARTUP_GRACE_NS then None
    else if g > 0 && st.lives[g - 1].started.None? then None
    else Some(st.(lives := st.lives[g := st.lives[g].(started := Some(mark))]))
  }

  function StepTerminal(plan: Plan, st: State, mark: Mark, g: nat, complete: bool): Option<State>
    requires |st.lives| == plan.Count() && g < plan.Count()
  {
    if st.lives[g].terminal.Some? || !Past(st.lives[g].started, mark.record) || !complete then None
    else if g > 0 && g !in st.promoted then None
    else if g + 1 < plan.Count() &&
            !(Past(st.lives[g + 1].started, mark.record) && st.lives[g + 1].started.value.mono <= mark.mono) then None
    else Some(st.(lives := st.lives[g := st.lives[g].(terminal := Some(mark))]))
  }

  function StepExited(plan: Plan, st: State, mark: Mark, g: nat, success: bool): Option<State>
    requires |st.lives| == plan.Count() && g < plan.Count()
  {
    if st.lives[g].exited.Some? || !Past(st.lives[g].terminal, mark.record) || !success then None
    else Some(st.(lives := st.lives[g := st.lives[g].(exited := Some(mark))]))
  }

  function StepProof(plan: Plan, st: State, i: nat, g: nat, predecessor: nat): Option<State>
    requires |st.lives| == plan.Count() && g < plan.Count()
  {
    if predecessor + 1 != g || g in st.proofStarted || g !in st.registered then None
    else if st.active != Some(predecessor) || st.pending != Some(g) then None
    else if !Past(st.lives[predecessor].exited, i) || !Past(st.lives[g].started, i) then None
    else Some(st.(proofStarted := st.proofStarted + {g}))
  }

  function StepPromoted(plan: Plan, st: State, g: nat, predecessor: nat, proof: string): Option<State>
    requires |st.lives| == plan.Count() && g < plan.Count()
  {
    if predecessor + 1 != g || g !in st.proofStarted || g !in st.registered || g in st.promoted then None
    else if st.active != Some(predecessor) || st.pending != Some(g) then None
    else if g !in plan.proofs || plan.proofs[g] != proof || st.lives[g].terminal.Some? then None
    else Some(st.(promoted := st.promoted[g := proof], active := Some(g), pending := None))
  }

  function StepInitialActive(plan: Plan, st: State, i: nat, g: nat): Option<State>
    requires |st.lives| == plan.Count() && g < plan.Count()
  {
    if g != 0 || st.initialActive || !Past(st.lives[0].started, i) then None
    else Some(st.(initialActive := true, active := Some(0)))
  }

  function StepCandidate(plan: Plan, st: State, i: nat, g: nat): Option<State>
    requires |st.lives| == plan.Count() && g < plan.Count()
  {
    var st :=
      if st.warmed == Some(g) && st.pending.None? && g > 0 && st.active == Some(g - 1)
      then st.(warmed := None, pending := Some(g)) else st;
    if g == 0 || !Past(st.lives[g].started, i) || st.active != Some(g - 1) || st.pending != Some(g)
       || g in st.registered
    then None else Some(st.(registered := st.registered + {g}))
  }

  function StepDurable(plan: Plan, st: State, g: nat, id: ShutdownId): Option<State>
    requires |st.lives| == plan.Count() && g < plan.Count()
  {
    var streamKey, epochKey := (g, id.stream), (g, id.epoch);
    if id.epoch != plan.generations[g].Epoch(id.stream) || st.lives[g].exited.Some? then None
    else if id !in plan.generations[g].rawShutdowns || (g, id) in st.observedIds then None
    else if Observed(st, streamKey) == U64_MAX || Available(st, epochKey) == U64_MAX then None
    else
      Some(st.(observedIds := st.observedIds + {(g, id)},
               observed := st.observed[streamKey := Observed(st, streamKey) + 1],
               available := st.available[epochKey := Available(st, epochKey) + 1]))
  }

  function StepNote(plan: Plan, st: State, g: nat, epoch: string, ignored: bool): Option<State>
    requires |st.lives| == plan.Count() && g < plan.Count()
  {
    if !IsEpoch(plan, g, epoch) then None
    else if ignored && st.active == Some(g) then None
    else if !ignored && (st.active != Some(g) || st.pending.None?) then None
    else Consume(st, (g, epoch))
  }

  /** The records that belong to one generation. */
  function StepGeneration(plan: Plan, st: State, i: nat, mono: nat, g: nat, e: Event): Option<State>
    requires |st.lives| == plan.Count() && g < plan.Count()
  {
    match e
    case ShutdownDurable(id) => StepDurable(plan, st, g, id)
    case Launched(durationS, source) => StepLaunch(plan, st, Mark(i, mono), g, durationS, source)
    case ProcessStarted(process) => StepStarted(plan, st, Mark(i, mono), g, process)
    case ProcessTerminal(complete) => StepTerminal(plan, st, Mark(i, mono), g, complete)
    case GenerationExited(success) => StepExited(plan, st, Mark(i, mono), g, success)
    case HandoverProofStarted(predecessor) => StepProof(plan, st, i, g, predecessor)
    case HandoverPromoted(predecessor, proof) => StepPromoted(plan, st, g, predecessor, proof)
    case InitialActiveRegistered => StepInitialActive(plan, st, i, g)
    case CandidateRegistered => StepCandidate(plan, st, i, g)
    case ShutdownIgnored(epoch) => StepNote(plan, st, g, epoch, true)
    case ShutdownAlreadyPending(epoch) => StepNote(plan, st, g, epoch, false)
    case ChildStatus => Some(st)
    case _ => None
  }

  /** The record with position `i` of the journal; nothing when the verifier refuses it. */
  function Step(plan: Plan, st: State, i: nat, r: JournalRecord): Option<State>
    requires |st.lives| == plan.Count()
  {
    if !Admitted(plan, r) then None
    else if FromChild(r.event) && !r.event.ProcessStarted? && r.generation.Some?
            && !(Past(st.lives[r.generation.value].started, i)
                 && st.lives[r.generation.value].terminal.None?) then None
    else if r.generation.Some? then StepGeneration(plan, st, i, r.mono, r.generation.value, r.event)
    else
      match r.event
      case CampaignStarted(_, _) => Some(st.(startedCount := st.startedCount + 1))
      case EvaluationPrepared =>
        Some(st.(preparedCount := st.preparedCount + 1, prepared := Some(Mark(i, r.mono))))
      case CampaignCommitted(_, _) => Some(st.(committedCount := st.committedCount + 1))
      case _ => None
  }

  /** The state after a list of records. */
  function Run(plan: Plan, rs: seq<JournalRecord>): (r: Option<State>)
    ensures r.Some? ==> |r.value.lives| == plan.Count()
  {
    if rs == [] then Some(Initial(plan))
    else
      var last := |rs| - 1;
      var before := Run(plan, rs[..last]);
      if before.None? then None
      else
        StepKeepsSize(plan, before.value, last, rs[last]);
        Step(plan, before.value, last, rs[last])
  }

  lemma StepKeepsSize(plan: Plan, st: State, i: nat, r: JournalRecord)
    requires |st.lives| == plan.Count()
    ensures Step(plan, st, i, r).Some? ==> |Step(plan, st, i, r).value.lives| == plan.Count()
  {
    hide Observed, Available, IsEpoch, StepLaunch, AllowedOn, IsExpected;
    match r.event
    case Launched(durationS, source) =>
      if r.generation.Some? && r.generation.value < plan.Count() {
        LaunchKeepsSize(plan, st, Mark(i, r.mono), r.generation.value, durationS, source);
      }
    case _ =>
  }

  lemma LaunchKeepsSize(plan: Plan, st: State, mark: Mark, g: nat, durationS: nat, source: Option<(nat, string)>)
    requires |st.lives| == plan.Count() && g < plan.Count()
    ensures
      var next := StepLaunch(plan, st, mark, g, durationS, source);
      next.Some? ==> |next.value.lives| == plan.Count()
  {
    hide Available, IsEpoch;
  }

  // ----- acceptance -----

  function Tokens(gs: seq<Generation>): seq<string> {
    if gs == [] then []
    else
      var last := |gs| - 1;
      Tokens(gs[..last]) + [gs[last].sessionId, gs[last].depthEpoch, gs[last].tradeEpoch]
  }

  function CountStream(ids: seq<ShutdownId>, stream: StreamKind): nat {
    if ids == [] then 0
    else CountStream(ids[..|ids| - 1], stream) + (if ids[|ids| - 1].stream == stream then 1 else 0)
  }

  /** The raw shutdown identities of a generation have its epochs, differ and match the counts. */
  predicate RawOk(gen: Generation) {
    && (forall i :: 0 <= i < |gen.rawShutdowns| ==>
          gen.rawShutdowns[i].epoch == gen.Epoch(gen.rawShutdowns[i].stream))
    && (forall i, j :: 0 <= i < j < |gen.rawShutdowns| ==> gen.rawShutdowns[i] != gen.rawShutdowns[j])
    && CountStream(gen.rawShutdowns, Depth) == gen.depthShutdowns
    && CountStream(gen.rawShutdowns, Trade) == gen.tradeShutdowns
  }

  predicate NoRepeats(tokens: seq<string>) {
    forall i, j :: 0 <= i < j < |tokens| ==> tokens[i] != tokens[j]
  }

  /** No session or epoch is reused, and the raw shutdown identities match their declared counts. */
  predicate IdentitiesOk(plan: Plan) {
    && NoRepeats(Tokens(plan.generations))
    && (forall g :: 0 <= g < plan.Count() ==> RawOk(plan.generations[g]))
  }

  /** Every generation was launched, started, terminated and exited. */
  predicate AllComplete(st: State) {
    forall g :: 0 <= g < |st.lives| ==>
      st.lives[g].launch.Some? && st.lives[g].started.Some? && st.lives[g].terminal.Some? && st.lives[g].exited.Some?
  }

  function Window(plan: Plan, st: State, g: nat): GenerationWindow
    requires g < plan.Count() == |st.lives| && st.lives[g].started.Some?
  {
    GenerationWindow(st.lives[g].started.value.mono, plan.generations[g].durationS)
  }

  function Windows(plan: Plan, st: State): (ws: seq<GenerationWindow>)
    requires plan.Count() == |st.lives|
    requires forall g :: 0 <= g < |st.lives| ==> st.lives[g].started.Some?
    ensures |ws| == plan.Count() && forall g :: 0 <= g < |ws| ==> ws[g] == Window(plan, st, g)
  {
    seq(plan.Count(), g requires 0 <= g < plan.Count() => Window(plan, st, g))
  }

  /** The lifecycle part of the closing checks. */
  predicate LifecycleComplete(plan: Plan, st: State)
    requires plan.Count() == |st.lives|
  {
    && AllComplete(st)
    && st.startedCount == 1 && st.preparedCount == 1 && st.committedCount == 1
    && st.initialActive && st.active == Some(plan.Count() - 1) && st.pending.None? && st.warmed.None?
    && (forall g :: 0 < g < plan.Count() ==> g in st.proofStarted && g in st.promoted)
    && (forall g :: g in st.proofStarted ==> 0 < g < plan.Count())
    && (forall g :: g in st.promoted ==> 0 < g < plan.Count())
    && (forall g :: g in plan.proofs ==> g in st.promoted && st.promoted[g] == plan.proofs[g])
  }

  /** Every shutdown event was disposed of, and the journal saw exactly the raw identities. */
  predicate ShutdownsSettled(plan: Plan, st: State) {
    && (forall key :: key in st.available ==> st.available[key] == 0)
    && (forall g, id :: 0 <= g < plan.Count() && id in plan.generations[g].rawShutdowns ==> (g, id) in st.observedIds)
    && (forall g :: 0 <= g < plan.Count() ==>
          && Observed(st, (g, Depth)) == plan.generations[g].depthShutdowns
          && Observed(st, (g, Trade)) == plan.generations[g].tradeShutdowns)
  }

  /** The successor starts before its predecessor terminates and exits. */
  predicate StartsInTime(st: State, g: nat)
    requires 0 < g < |st.lives| && AllComplete(st)
  {
    && st.lives[g].started.value.mono < st.lives[g - 1].terminal.value.mono
    && st.lives[g].started.value.mono < st.lives[g - 1].exited.value.mono
  }

  /** The timing part: overlap of neighbours, window coverage and the closing boundary. */
  ghost predicate TimingOk(plan: Plan, st: State)
    requires plan.Count() == |st.lives| && plan.Count() > 0
    requires AllComplete(st)
  {
    var requiredEnd := plan.totalDurationS * SECOND_NS;
    var final := st.lives[plan.Count() - 1];
    && plan.totalDurationS <= U64_MAX / SECOND_NS
    && st.lives[0].started.value.mono <= DepthContinuity.STARTUP_GRACE_NS
    && (forall g :: 0 < g < plan.Count() ==> StartsInTime(st, g))
    && GenerationSweep(Windows(plan, st), requiredEnd)
    && requiredEnd <= final.terminal.value.mono && requiredEnd <= final.exited.value.mono
    && st.prepared.Some?
    && final.terminal.value.record < st.prepared.value.record && final.exited.value.record < st.prepared.value.record
    && final.terminal.value.mono <= st.prepared.value.mono && final.exited.value.mono <= st.prepared.value.mono
  }

  predicate IsTerminal(r: JournalRecord, e: Event) {
    r.channel == CampaignChannel && r.generation.None? && r.event == e
  }

  predicate Terminals(plan: Plan, rs: seq<JournalRecord>) {
    && |rs| >= 3
    && IsTerminal(rs[0], CampaignStarted(plan.campaignId, plan.startupDigest))
    && IsTerminal(rs[|rs| - 2], EvaluationPrepared)
    && IsTerminal(rs[|rs| - 1], CampaignCommitted("campaign.json", plan.manifestDigest))
  }

  /** The journal verifies: `_journal_events` returns without a failure. */
  ghost predicate Accepted(plan: Plan, rs: seq<JournalRecord>) {
    && plan.Count() > 0
    && Terminals(plan, rs) && IdentitiesOk(plan)
    && Run(plan, rs).Some?
    && LifecycleComplete(plan, Run(plan, rs).value)
    && ShutdownsSettled(plan, Run(plan, rs).value)
    && TimingOk(plan, Run(plan, rs).value)
  }

  /** `_journal_events`: the loop over the records and the closing checks. */
  method JournalEvents(plan: Plan, rs: seq<JournalRecord>) returns (ok: bool)
    ensures ok == Accepted(plan, rs)
  {
    hide Step, IdentitiesOk, ShutdownsSettled, GenerationSweep;
    if !Terminals(plan, rs) || !IdentitiesOk(plan) {
      return false;
    }
    var st := Initial(plan);
    for i := 0 to |rs|
      invariant |st.lives| == plan.Count()
      invariant Run(plan, rs[..i]) == Some(st)
    {
      assert rs[..i + 1][..i] == rs[..i];
      StepKeepsSize(plan, st, i, rs[i]);
      var next := Step(plan, st, i, rs[i]);
      if next.None? {
        RunStops(plan, rs, i + 1);
        return false;
      }
      st := next.value;
    }
    assert rs[..|rs|] == rs;
    if !LifecycleComplete(plan, st) || !ShutdownsSettled(plan, st) {
      return false;
    }
    ok := CheckTiming(plan, st);
  }

  lemma {:induction false} RunStops(plan: Plan, rs: seq<JournalRecord>, i: nat)
    requires i <= |rs| && Run(plan, rs[..i]).None?
    ensures Run(plan, rs).None?
  {
    hide Step;
    if i < |rs| {
      assert rs[..|rs| - 1][..i] == rs[..i];
      RunStops(plan, rs[..|rs| - 1], i);
    } else {
      assert rs[..i] == rs;
    }
  }

  method CheckTiming(plan: Plan, st: State) returns (ok: bool)
    requires plan.Count() == |st.lives| && plan.Count() > 0
    requires AllComplete(st)
    ensures ok == TimingOk(plan, st)
  {
    hide GenerationSweep;
    if plan.totalDurationS > U64_MAX / SECOND_NS {
      return false;
    }
    var requiredEnd := plan.totalDurationS * SECOND_NS;
    if st.lives[0].started.value.mono > DepthContinuity.STARTUP_GRACE_NS {
      return false;
    }
    for g := 1 to plan.Count()
      invariant forall h :: 0 < h < g ==> StartsInTime(st, h)
    {
      if st.lives[g].started.value.mono >= st.lives[g - 1].terminal.value.mono
         || st.lives[g].started.value.mono >= st.lives[g - 1].exited.value.mono {
        assert !StartsInTime(st, g);
        return false;
      }
    }
    var swept := SweepGenerations(Windows(plan, st), requiredEnd);
    if !swept {
      return false;
    }
    var final := st.lives[plan.Count() - 1];
    return
      && requiredEnd <= final.terminal.value.mono && requiredEnd <= final.exited.value.mono
      && st.prepared.Some?
      && final.terminal.value.record < st.prepared.value.record && final.exited.value.record < st.prepared.value.record
      && final.terminal.value.mono <= st.prepared.value.mono && final.exited.value.mono <= st.prepared.value.mono;
  }
}
