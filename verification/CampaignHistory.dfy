/**
  When the campaign journal accepts a record, told from the earlier records alone: which records
  have happened, without the slots, sets and counters of the verifier.
 */
module CampaignHistory {
  import opened Wrappers
  import opened Streams
  import opened Powers
  import opened Campaign
  import opened CampaignRuns
  import opened CampaignShutdowns

  /** The records that happen at most once to a generation. */
  datatype Kind = Launch | Start | Terminate | Exit | Activate | Register | Prove | Promote

  predicate IsOf(r: JournalRecord, kind: Kind, g: nat) {
    && r.generation == Some(g)
    && match kind
       case Launch => r.event.Launched?
       case Start => r.event.ProcessStarted?
       case Terminate => r.event.ProcessTerminal?
       case Exit => r.event.GenerationExited?
       case Activate => r.event.InitialActiveRegistered?
       case Register => r.event.CandidateRegistered?
       case Prove => r.event.HandoverProofStarted?
       case Promote => r.event.HandoverPromoted?
  }

  ghost predicate Happened(rs: seq<JournalRecord>, kind: Kind, g: nat) {
    exists i :: 0 <= i < |rs| && IsOf(rs[i], kind, g)
  }

  /** The generation publishes: it took over, and its successor has not. */
  ghost predicate Leads(rs: seq<JournalRecord>, g: nat) {
    Happened(rs, if g == 0 then Activate else Promote, g) && !Happened(rs, Promote, g + 1)
  }

  /** The child of the generation has started and not terminated. */
  ghost predicate Running(rs: seq<JournalRecord>, g: nat) {
    Happened(rs, Start, g) && !Happened(rs, Terminate, g)
  }

  predicate LaunchesAhead(before: seq<JournalRecord>, r: JournalRecord, g: nat) {
    g >= 2 && IsOf(r, Launch, g) && forall i :: 0 <= i < |before| ==> !IsOf(before[i], Promote, g - 1)
  }

  /** The generation was launched before its predecessor took over. */
  ghost predicate LaunchedAhead(rs: seq<JournalRecord>, g: nat) {
    exists i :: 0 <= i < |rs| && LaunchesAhead(rs[..i], rs[i], g)
  }

  /** The generation is warm: launched ahead, and without a claim to succeed until registered. */
  ghost predicate IsWarm(rs: seq<JournalRecord>, g: nat) {
    LaunchedAhead(rs, g) && !Happened(rs, Register, g)
  }

  /** The generation is the pending candidate: the leader's successor, launched and not warm. */
  ghost predicate IsCandidate(rs: seq<JournalRecord>, g: nat) {
    g > 0 && Leads(rs, g - 1) && Happened(rs, Launch, g) && !IsWarm(rs, g)
  }

  /** The start of the generation is on record, at or before the clock reading. */
  ghost predicate StartedBy(rs: seq<JournalRecord>, g: nat, mono: nat) {
    exists i :: 0 <= i < |rs| && IsOf(rs[i], Start, g) && rs[i].mono <= mono
  }

  /** A shutdown announcement of the key has not been disposed of. */
  predicate Unspent(rs: seq<JournalRecord>, key: Key) {
    Disposed(rs, key) < Announced(rs, key)
  }

  predicate OfSupervisor(r: JournalRecord) { r.channel == Supervisor }

  predicate OfCampaign(r: JournalRecord) { r.channel == CampaignChannel }

  predicate OfChild(plan: Plan, r: JournalRecord, g: nat)
    requires g < plan.Count()
  {
    r.channel == ChildStdout && r.session == Some(plan.generations[g].sessionId)
  }

  predicate OwnEpoch(plan: Plan, g: nat, epoch: string)
    requires g < plan.Count()
  {
    epoch in {plan.generations[g].depthEpoch, plan.generations[g].tradeEpoch}
  }

  /**
    A launch is the first of its generation. It follows the leader, or runs one further ahead while
    the generation between them is the candidate. One that names a shutdown spends an announcement
    of the leader, which is still running.
   */
  ghost predicate MayLaunch(plan: Plan, rs: seq<JournalRecord>, g: nat, durationS: nat, source: Option<Key>)
    requires g < plan.Count()
  {
    && !Happened(rs, Launch, g) && durationS == plan.generations[g].durationS
    && match source
       case None => g == 0 || Leads(rs, g - 1) || (g >= 2 && Leads(rs, g - 2) && IsCandidate(rs, g - 1))
       case Some(key) =>
         && g > 0 && key.0 == g - 1 && key.1 != "" && Leads(rs, key.0) && !Happened(rs, Terminate, key.0)
         && OwnEpoch(plan, key.0, key.1) && Unspent(rs, key)
  }

  ghost predicate MayStart(plan: Plan, rs: seq<JournalRecord>, g: nat, mono: nat, process: ProcessStart)
    requires g < plan.Count()
  {
    && Happened(rs, Launch, g) && !Happened(rs, Start, g)
    && (g == 0 ==> mono <= 30_000_000_000) && (g > 0 ==> Happened(rs, Start, g - 1))
    && process.generation == g && process.symbol == plan.generations[g].symbol
    && process.specRevision == "976cc580553890e92031b77306147c0ed1de5a46"
    && process.startupDigest == plan.generations[g].startupDigest
    && process.processId > 0 && process.inSession
  }

  ghost predicate MayTerminate(plan: Plan, rs: seq<JournalRecord>, g: nat, mono: nat) {
    && Running(rs, g) && (g > 0 ==> Happened(rs, Promote, g))
    && (g + 1 < plan.Count() ==> StartedBy(rs, g + 1, mono))
  }

  ghost predicate MayAnnounce(plan: Plan, rs: seq<JournalRecord>, g: nat, id: ShutdownId)
    requires g < plan.Count()
  {
    && Running(rs, g) && id in plan.generations[g].rawShutdowns && !ReportedBy(rs, g, id)
    && id.epoch == (if id.stream.Depth? then plan.generations[g].depthEpoch else plan.generations[g].tradeEpoch)
    && ReportedStream(rs, g, id.stream) < U64_MAX
    && Announced(rs, (g, id.epoch)) < Disposed(rs, (g, id.epoch)) + U64_MAX
  }

  /** A note spends an announcement that starts no launch: not the leader's, or too late for one. */
  ghost predicate MayNote(plan: Plan, rs: seq<JournalRecord>, g: nat, epoch: string, ignored: bool)
    requires g < plan.Count()
  {
    && OwnEpoch(plan, g, epoch) && Unspent(rs, (g, epoch))
    && (if ignored then !Leads(rs, g) else Leads(rs, g) && IsCandidate(rs, g + 1))
  }

  ghost predicate MayProve(rs: seq<JournalRecord>, g: nat, predecessor: nat) {
    && g == predecessor + 1 && Leads(rs, predecessor) && Happened(rs, Exit, predecessor)
    && Happened(rs, Register, g) && !Happened(rs, Prove, g)
  }

  ghost predicate MayPromote(plan: Plan, rs: seq<JournalRecord>, g: nat, predecessor: nat, proof: string) {
    && g == predecessor + 1 && Leads(rs, predecessor) && Happened(rs, Register, g) && Happened(rs, Prove, g)
    && g in plan.proofs && plan.proofs[g] == proof
  }

  /** The record may follow the records before it. */
  ghost predicate Permitted(plan: Plan, rs: seq<JournalRecord>, r: JournalRecord) {
    match r.generation
    case None =>
      && OfCampaign(r)
      && (r.event in {CampaignStarted(plan.campaignId, plan.startupDigest), EvaluationPrepared,
                      CampaignCommitted("campaign.json", plan.manifestDigest)})
    case Some(g) => g < plan.Count() && PermittedOf(plan, rs, r, g)
  }

  ghost predicate PermittedOf(plan: Plan, rs: seq<JournalRecord>, r: JournalRecord, g: nat)
    requires g < plan.Count()
  {
    match r.event
    case Launched(durationS, source) => OfCampaign(r) && MayLaunch(plan, rs, g, durationS, source)
    case ProcessStarted(process) => OfChild(plan, r, g) && MayStart(plan, rs, g, r.mono, process)
    case ChildStatus => OfChild(plan, r, g) && Running(rs, g)
    case ShutdownDurable(id) => OfChild(plan, r, g) && MayAnnounce(plan, rs, g, id)
    case ProcessTerminal(complete) => OfChild(plan, r, g) && complete && MayTerminate(plan, rs, g, r.mono)
    case GenerationExited(success) =>
      OfCampaign(r) && success && Happened(rs, Terminate, g) && !Happened(rs, Exit, g)
    case InitialActiveRegistered =>
      OfSupervisor(r) && g == 0 && Happened(rs, Start, 0) && !Happened(rs, Activate, 0)
    case CandidateRegistered =>
      OfSupervisor(r) && g > 0 && Leads(rs, g - 1) && Happened(rs, Start, g) && !Happened(rs, Register, g)
    case HandoverProofStarted(predecessor) => OfCampaign(r) && MayProve(rs, g, predecessor)
    case HandoverPromoted(predecessor, proof) => OfSupervisor(r) && MayPromote(plan, rs, g, predecessor, proof)
    case ShutdownIgnored(epoch) => OfSupervisor(r) && MayNote(plan, rs, g, epoch, true)
    case ShutdownAlreadyPending(epoch) => OfSupervisor(r) && MayNote(plan, rs, g, epoch, false)
    case _ => false
  }

  // ----- the state holds what happened -----

  predicate Holds(st: State, kind: Kind, g: nat) {
    match kind
    case Launch => g < |st.lives| && st.lives[g].launch.Some?
    case Start => g < |st.lives| && st.lives[g].started.Some?
    case Terminate => g < |st.lives| && st.lives[g].terminal.Some?
    case Exit => g < |st.lives| && st.lives[g].exited.Some?
    case Activate => g == 0 && st.initialActive
    case Register => g in st.registered
    case Prove => g in st.proofStarted
    case Promote => g in st.promoted
  }

  /** What one record adds: the record is the first of its kind and generation. */
  ghost predicate Adds(st: State, st': State, r: JournalRecord, kind: Kind, g: nat) {
    && (Holds(st', kind, g) <==> Holds(st, kind, g) || IsOf(r, kind, g))
    && (IsOf(r, kind, g) ==> !Holds(st, kind, g))
  }

  lemma StepHolds(plan: Plan, st: State, i: nat, r: JournalRecord, kind: Kind, g: nat)
    requires |st.lives| == plan.Count() && Step(plan, st, i, r).Some?
    ensures Adds(st, Step(plan, st, i, r).value, r, kind, g)
  {
    hide AllowedOn, Holds, IsOf, StepGeneration;
    if r.generation.Some? {
      GenerationHolds(plan, st, i, r, r.generation.value, kind, g);
    } else {
      UnscopedHolds(plan, st, i, r, kind, g);
    }
  }

  lemma UnscopedHolds(plan: Plan, st: State, i: nat, r: JournalRecord, kind: Kind, g: nat)
    requires |st.lives| == plan.Count() && Step(plan, st, i, r).Some? && r.generation.None?
    ensures Adds(st, Step(plan, st, i, r).value, r, kind, g)
  {
    hide Admitted, AllowedOn, StepGeneration;
  }

  lemma GenerationHolds(plan: Plan, st: State, i: nat, r: JournalRecord, from: nat, kind: Kind, g: nat)
    requires |st.lives| == plan.Count() && from < plan.Count() && r.generation == Some(from)
    requires StepGeneration(plan, st, i, r.mono, from, r.event).Some?
    ensures Adds(st, StepGeneration(plan, st, i, r.mono, from, r.event).value, r, kind, g)
  {
    hide StepLaunch, StepStarted, StepTerminal, StepExited, StepDurable, StepNote, StepProof, StepPromoted, StepInitialActive;
    hide StepCandidate, Adds;
    var after := StepGeneration(plan, st, i, r.mono, from, r.event).value;
    match r.event
    case Launched(durationS, source) =>
      LaunchHolds(plan, st, Mark(i, r.mono), from, durationS, source, kind, g);
      LaunchAdds(st, after, r, from, kind, g);
    case ProcessStarted(process) =>
      StartedHolds(plan, st, Mark(i, r.mono), from, process);
      MarkAdds(st, after, r, from, Mark(i, r.mono), kind, g);
    case ProcessTerminal(complete) =>
      TerminalHolds(plan, st, Mark(i, r.mono), from, complete);
      MarkAdds(st, after, r, from, Mark(i, r.mono), kind, g);
    case GenerationExited(success) =>
      ExitedHolds(plan, st, Mark(i, r.mono), from, success);
      MarkAdds(st, after, r, from, Mark(i, r.mono), kind, g);
    case HandoverProofStarted(predecessor) =>
      ProofHolds(plan, st, i, from, predecessor);
      SetAdds(st, after, r, from, kind, g);
    case HandoverPromoted(predecessor, proof) =>
      PromotedHolds(plan, st, from, predecessor, proof);
      SetAdds(st, after, r, from, kind, g);
    case InitialActiveRegistered =>
      InitialHolds(plan, st, i, from);
      SetAdds(st, after, r, from, kind, g);
    case CandidateRegistered =>
      CandidateHolds(plan, st, i, from);
      SetAdds(st, after, r, from, kind, g);
    case ShutdownDurable(id) =>
      DurableHolds(plan, st, from, id);
      NothingAdds(st, after, r, kind, g);
    case ShutdownIgnored(epoch) =>
      NoteHolds(plan, st, from, epoch, true);
      NothingAdds(st, after, r, kind, g);
    case ShutdownAlreadyPending(epoch) =>
      NoteHolds(plan, st, from, epoch, false);
      NothingAdds(st, after, r, kind, g);
    case ChildStatus => NothingAdds(st, after, r, kind, g);
  }

  lemma NothingAdds(st: State, st': State, r: JournalRecord, kind: Kind, g: nat)
    requires r.event.ShutdownDurable? || r.event.ShutdownIgnored? || r.event.ShutdownAlreadyPending? || r.event.ChildStatus?
    requires st'.lives == st.lives && st'.initialActive == st.initialActive && st'.registered == st.registered
    requires st'.proofStarted == st.proofStarted && st'.promoted == st.promoted
    ensures Adds(st, st', r, kind, g)
  {
  }

  lemma LaunchAdds(st: State, st': State, r: JournalRecord, from: nat, kind: Kind, g: nat)
    requires r.event.Launched? && r.generation == Some(from)
    requires Holds(st', kind, g) <==> Holds(st, kind, g) || (kind.Launch? && g == from)
    requires kind.Launch? && g == from ==> !Holds(st, kind, g)
    ensures Adds(st, st', r, kind, g)
  {
    hide Holds;
  }

  lemma MarkAdds(st: State, st': State, r: JournalRecord, from: nat, mark: Mark, kind: Kind, g: nat)
    requires r.generation == Some(from) && from < |st.lives|
    requires st'.initialActive == st.initialActive && st'.registered == st.registered
    requires st'.proofStarted == st.proofStarted && st'.promoted == st.promoted
    requires match r.event
             case ProcessStarted(_) =>
               st.lives[from].started.None? && st'.lives == st.lives[from := st.lives[from].(started := Some(mark))]
             case ProcessTerminal(_) =>
               st.lives[from].terminal.None? && st'.lives == st.lives[from := st.lives[from].(terminal := Some(mark))]
             case GenerationExited(_) =>
               st.lives[from].exited.None? && st'.lives == st.lives[from := st.lives[from].(exited := Some(mark))]
             case _ => false
    ensures Adds(st, st', r, kind, g)
  {
  }

  lemma SetAdds(st: State, st': State, r: JournalRecord, from: nat, kind: Kind, g: nat)
    requires r.generation == Some(from) && st'.lives == st.lives
    requires match r.event
             case HandoverProofStarted(_) =>
               && from !in st.proofStarted && st'.proofStarted == st.proofStarted + {from}
               && st'.initialActive == st.initialActive && st'.registered == st.registered && st'.promoted == st.promoted
             case HandoverPromoted(_, proof) =>
               && from !in st.promoted && st'.promoted == st.promoted[from := proof]
               && st'.initialActive == st.initialActive && st'.registered == st.registered && st'.proofStarted == st.proofStarted
             case InitialActiveRegistered =>
               && from == 0 && !st.initialActive && st'.initialActive
               && st'.registered == st.registered && st'.proofStarted == st.proofStarted && st'.promoted == st.promoted
             case CandidateRegistered =>
               && from !in st.registered && st'.registered == st.registered + {from}
               && st'.initialActive == st.initialActive && st'.proofStarted == st.proofStarted && st'.promoted == st.promoted
             case _ => false
    ensures Adds(st, st', r, kind, g)
  {
  }

  lemma StartedHolds(plan: Plan, st: State, mark: Mark, g: nat, process: ProcessStart)
    requires |st.lives| == plan.Count() && g < plan.Count() && StepStarted(plan, st, mark, g, process).Some?
    ensures st.lives[g].started.None?
    ensures StepStarted(plan, st, mark, g, process).value ==
            st.(lives := st.lives[g := st.lives[g].(started := Some(mark))])
  {
    hide IsExpected;
  }

  lemma TerminalHolds(plan: Plan, st: State, mark: Mark, g: nat, complete: bool)
    requires |st.lives| == plan.Count() && g < plan.Count() && StepTerminal(plan, st, mark, g, complete).Some?
    ensures st.lives[g].terminal.None?
    ensures StepTerminal(plan, st, mark, g, complete).value ==
            st.(lives := st.lives[g := st.lives[g].(terminal := Some(mark))])
  {
  }

  lemma ExitedHolds(plan: Plan, st: State, mark: Mark, g: nat, success: bool)
    requires |st.lives| == plan.Count() && g < plan.Count() && StepExited(plan, st, mark, g, success).Some?
    ensures st.lives[g].exited.None?
    ensures StepExited(plan, st, mark, g, success).value ==
            st.(lives := st.lives[g := st.lives[g].(exited := Some(mark))])
  {
  }

  lemma ProofHolds(plan: Plan, st: State, i: nat, g: nat, predecessor: nat)
    requires |st.lives| == plan.Count() && g < plan.Count() && StepProof(plan, st, i, g, predecessor).Some?
    ensures g !in st.proofStarted
    ensures StepProof(plan, st, i, g, predecessor).value == st.(proofStarted := st.proofStarted + {g})
  {
  }

  lemma PromotedHolds(plan: Plan, st: State, g: nat, predecessor: nat, proof: string)
    requires |st.lives| == plan.Count() && g < plan.Count() && StepPromoted(plan, st, g, predecessor, proof).Some?
    ensures g !in st.promoted
    ensures StepPromoted(plan, st, g, predecessor, proof).value ==
            st.(promoted := st.promoted[g := proof], active := Some(g), pending := None)
  {
  }

  lemma InitialHolds(plan: Plan, st: State, i: nat, g: nat)
    requires |st.lives| == plan.Count() && g < plan.Count() && StepInitialActive(plan, st, i, g).Some?
    ensures g == 0 && !st.initialActive
    ensures StepInitialActive(plan, st, i, g).value == st.(initialActive := true, active := Some(0))
  {
  }

  lemma CandidateHolds(plan: Plan, st: State, i: nat, g: nat)
    requires |st.lives| == plan.Count() && g < plan.Count() && StepCandidate(plan, st, i, g).Some?
    ensures g !in st.registered
    ensures
      var next := StepCandidate(plan, st, i, g).value;
      next == st.(registered := st.registered + {g}, warmed := next.warmed, pending := next.pending)
  {
  }

  lemma NoteHolds(plan: Plan, st: State, g: nat, epoch: string, ignored: bool)
    requires |st.lives| == plan.Count() && g < plan.Count() && StepNote(plan, st, g, epoch, ignored).Some?
    ensures
      var next := StepNote(plan, st, g, epoch, ignored).value;
      next == st.(available := next.available)
  {
    hide Available, IsEpoch;
  }

  lemma DurableHolds(plan: Plan, st: State, g: nat, id: ShutdownId)
    requires |st.lives| == plan.Count() && g < plan.Count() && StepDurable(plan, st, g, id).Some?
    ensures
      var next := StepDurable(plan, st, g, id).value;
      next == st.(observedIds := next.observedIds, observed := next.observed, available := next.available)
  {
    hide Observed, Available;
  }

  lemma LaunchHolds(plan: Plan, st: State, mark: Mark, from: nat, durationS: nat, source: Option<Key>, kind: Kind, g: nat)
    requires |st.lives| == plan.Count() && from < plan.Count()
    requires StepLaunch(plan, st, mark, from, durationS, source).Some?
    ensures
      var next := StepLaunch(plan, st, mark, from, durationS, source).value;
      && (Holds(next, kind, g) <==> Holds(st, kind, g) || (kind.Launch? && g == from))
      && (kind.Launch? && g == from ==> !Holds(st, kind, g))
  {
    hide Available, IsEpoch, Consume;
    if source.Some? {
      ConsumeKeepsSlots(st, source.value);
    }
  }

  lemma HappenedNext(rs: seq<JournalRecord>, kind: Kind, g: nat)
    requires rs != []
    ensures Happened(rs, kind, g) <==> Happened(rs[..|rs| - 1], kind, g) || IsOf(rs[|rs| - 1], kind, g)
  {
    hide IsOf;
    var front := rs[..|rs| - 1];
    if Happened(front, kind, g) {
      var i :| 0 <= i < |front| && IsOf(front[i], kind, g);
      assert IsOf(rs[i], kind, g);
    }
    if Happened(rs, kind, g) {
      var i :| 0 <= i < |rs| && IsOf(rs[i], kind, g);
      assert i < |front| ==> IsOf(front[i], kind, g);
    }
  }

  /** The marks and sets of the state are the records that happened, each at most once. */
  lemma {:induction false} RunHolds(plan: Plan, rs: seq<JournalRecord>, kind: Kind, g: nat)
    requires Run(plan, rs).Some?
    ensures Holds(Run(plan, rs).value, kind, g) <==> Happened(rs, kind, g)
    ensures forall i, j :: 0 <= i < j < |rs| && IsOf(rs[i], kind, g) ==> !IsOf(rs[j], kind, g)
  {
    hide Step, IsOf;
    if rs != [] {
      var last := |rs| - 1;
      var front := rs[..last];
      RunHolds(plan, front, kind, g);
      StepHolds(plan, Run(plan, front).value, last, rs[last], kind, g);
      HappenedNext(rs, kind, g);
      forall i, j | 0 <= i < j < |rs| && IsOf(rs[i], kind, g) ensures !IsOf(rs[j], kind, g) {
        assert IsOf(front[i], kind, g);
        assert j < last ==> front[j] == rs[j];
      }
    }
  }

  // ----- the slots, told from the records -----

  lemma LaunchedAheadNext(rs: seq<JournalRecord>, g: nat)
    requires rs != []
    ensures
      var front, r := rs[..|rs| - 1], rs[|rs| - 1];
      LaunchedAhead(rs, g) <==>
      LaunchedAhead(front, g) || (g >= 2 && IsOf(r, Launch, g) && !Happened(front, Promote, g - 1))
  {
    hide IsOf, LaunchesAhead;
    var last := |rs| - 1;
    var front := rs[..last];
    forall i | 0 <= i < last ensures front[..i] == rs[..i] && front[i] == rs[i] {
    }
    assert LaunchesAhead(front, rs[last], g) <==> g >= 2 && IsOf(rs[last], Launch, g) && !Happened(front, Promote, g - 1) by {
      AheadUnfolds(front, rs[last], g);
    }
    if LaunchedAhead(front, g) {
      var i :| 0 <= i < last && LaunchesAhead(front[..i], front[i], g);
      assert LaunchesAhead(rs[..i], rs[i], g);
    }
    if LaunchedAhead(rs, g) {
      var i :| 0 <= i < |rs| && LaunchesAhead(rs[..i], rs[i], g);
      assert i < last ==> LaunchesAhead(front[..i], front[i], g);
    }
  }

  lemma AheadUnfolds(before: seq<JournalRecord>, r: JournalRecord, g: nat)
    ensures LaunchesAhead(before, r, g) <==> g >= 2 && IsOf(r, Launch, g) && !Happened(before, Promote, g - 1)
  {
    hide IsOf;
  }

  /** How one record moves the warm slot. */
  lemma StepWarms(plan: Plan, st: State, i: nat, r: JournalRecord, g: nat)
    requires |st.lives| == plan.Count() && Inv(plan, st, i) && Step(plan, st, i, r).Some?
    ensures
      Step(plan, st, i, r).value.warmed == Some(g) <==>
      || (st.warmed == Some(g) && !IsOf(r, Register, g))
      || (g >= 2 && IsOf(r, Launch, g) && g - 1 !in st.promoted)
  {
    hide AllowedOn, StepGeneration, Ordered;
    if r.generation.Some? {
      GenerationWarms(plan, st, i, r, r.generation.value, g);
    }
  }

  lemma GenerationWarms(plan: Plan, st: State, i: nat, r: JournalRecord, from: nat, g: nat)
    requires |st.lives| == plan.Count() && from < plan.Count() && r.generation == Some(from) && Inv(plan, st, i)
    requires StepGeneration(plan, st, i, r.mono, from, r.event).Some?
    ensures
      StepGeneration(plan, st, i, r.mono, from, r.event).value.warmed == Some(g) <==>
      || (st.warmed == Some(g) && !IsOf(r, Register, g))
      || (g >= 2 && IsOf(r, Launch, g) && g - 1 !in st.promoted)
  {
    hide StepLaunch, StepStarted, StepTerminal, StepExited, StepDurable, StepNote, StepProof, StepPromoted, StepInitialActive;
    hide StepCandidate, Inv;
    match r.event
    case Launched(durationS, source) => LaunchWarms(plan, st, Mark(i, r.mono), from, durationS, source);
    case ShutdownDurable(id) => DurableHolds(plan, st, from, id);
    case ShutdownIgnored(epoch) => NoteHolds(plan, st, from, epoch, true);
    case ShutdownAlreadyPending(epoch) => NoteHolds(plan, st, from, epoch, false);
    case ProcessStarted(process) => StartedHolds(plan, st, Mark(i, r.mono), from, process);
    case ProcessTerminal(complete) => TerminalHolds(plan, st, Mark(i, r.mono), from, complete);
    case GenerationExited(success) => ExitedHolds(plan, st, Mark(i, r.mono), from, success);
    case HandoverProofStarted(predecessor) => ProofHolds(plan, st, i, from, predecessor);
    case HandoverPromoted(predecessor, proof) => PromotedHolds(plan, st, from, predecessor, proof);
    case InitialActiveRegistered => InitialHolds(plan, st, i, from);
    case CandidateRegistered => CandidateWarms(plan, st, i, from);
    case ChildStatus =>
  }

  lemma LaunchWarms(plan: Plan, st: State, mark: Mark, g: nat, durationS: nat, source: Option<Key>)
    requires |st.lives| == plan.Count() && g < plan.Count() && Inv(plan, st, mark.record)
    requires StepLaunch(plan, st, mark, g, durationS, source).Some?
    ensures st.warmed.None?
    ensures StepLaunch(plan, st, mark, g, durationS, source).value.warmed ==
            if g >= 2 && g - 1 !in st.promoted then Some(g) else None
  {
    hide Ordered, Available, IsEpoch, Consume, PredecessorExited;
    if source.Some? {
      ConsumeKeepsSlots(st, source.value);
    }
  }

  lemma CandidateWarms(plan: Plan, st: State, i: nat, g: nat)
    requires |st.lives| == plan.Count() && g < plan.Count() && Inv(plan, st, i) && StepCandidate(plan, st, i, g).Some?
    ensures StepCandidate(plan, st, i, g).value.warmed == if st.warmed == Some(g) then None else st.warmed
  {
    hide Ordered, Promotions;
  }

  lemma RegisteredIsLaunched(plan: Plan, st: State, n: nat, g: nat)
    requires Inv(plan, st, n) && g in st.registered
    ensures Holds(st, Launch, g)
  {
    hide Pipeline, NeighboursAt, PredecessorExited;
    assert g < |st.lives| && LifeOrdered(st.lives[g], n);
  }

  /** The warm slot holds the generation launched ahead and not yet registered. */
  lemma {:induction false} RunWarms(plan: Plan, rs: seq<JournalRecord>, g: nat)
    requires Run(plan, rs).Some?
    ensures Run(plan, rs).value.warmed == Some(g) <==> IsWarm(rs, g)
  {
    hide Step, IsOf, LaunchesAhead, Happened, LaunchedAhead, Inv;
    if rs == [] {
      NothingAhead(g);
    } else {
      var last := |rs| - 1;
      var front, r := rs[..last], rs[last];
      var st := Run(plan, front).value;
      RunWarms(plan, front, g);
      RunKeepsInv(plan, front);
      StepWarms(plan, st, last, r, g);
      LaunchedAheadNext(rs, g);
      HappenedNext(rs, Register, g);
      RunHolds(plan, front, Register, g);
      RunHolds(plan, front, Launch, g);
      StepHolds(plan, st, last, r, Launch, g);
      if g >= 2 {
        RunHolds(plan, front, Promote, g - 1);
      }
      if g in st.registered {
        RegisteredIsLaunched(plan, st, last, g);
      }
      LaunchIsNoRegistration(r, g);
    }
  }

  lemma LaunchIsNoRegistration(r: JournalRecord, g: nat)
    ensures !(IsOf(r, Launch, g) && IsOf(r, Register, g))
  {
  }

  lemma NothingAhead(g: nat)
    ensures !LaunchedAhead([], g)
  {
  }

  /** The three slots of the state are the leader, the candidate and the warm generation. */
  lemma {:induction false} SlotsMean(plan: Plan, rs: seq<JournalRecord>, g: nat)
    requires Run(plan, rs).Some?
    ensures
      var st := Run(plan, rs).value;
      && (st.active == Some(g) <==> Leads(rs, g))
      && (st.pending == Some(g) <==> IsCandidate(rs, g))
      && (st.warmed == Some(g) <==> IsWarm(rs, g))
  {
    hide Run, Happened, Inv, IsWarm;
    var st := Run(plan, rs).value;
    RunKeepsInv(plan, rs);
    RunWarms(plan, rs, g);
    ActiveMeans(plan, rs, g);
    if g > 0 {
      ActiveMeans(plan, rs, g - 1);
      RunHolds(plan, rs, Launch, g);
    }
    PendingSlot(plan, st, |rs|, g);
  }

  lemma ActiveMeans(plan: Plan, rs: seq<JournalRecord>, g: nat)
    requires Run(plan, rs).Some?
    ensures Run(plan, rs).value.active == Some(g) <==> Leads(rs, g)
  {
    hide Run, Happened, Ordered, PredecessorExited;
    RunKeepsInv(plan, rs);
    RunHolds(plan, rs, Activate, 0);
    RunHolds(plan, rs, Promote, g);
    RunHolds(plan, rs, Promote, g + 1);
    assert 1 in Run(plan, rs).value.promoted ==> Run(plan, rs).value.active.Some?;
  }

  lemma PendingSlot(plan: Plan, st: State, n: nat, g: nat)
    requires Inv(plan, st, n)
    ensures st.pending == Some(g) <==> g > 0 && st.active == Some(g - 1) && Holds(st, Launch, g) && st.warmed != Some(g)
  {
    hide Ordered, Promotions;
  }

  /** The start mark carries the clock of the start record. */
  lemma {:induction false} RunStartedBy(plan: Plan, rs: seq<JournalRecord>, g: nat, mono: nat)
    requires Run(plan, rs).Some? && g < plan.Count()
    ensures
      var started := Run(plan, rs).value.lives[g].started;
      started.Some? && started.value.mono <= mono <==> StartedBy(rs, g, mono)
  {
    hide Step, IsOf;
    if rs != [] {
      var last := |rs| - 1;
      var front, r := rs[..last], rs[last];
      var st := Run(plan, front).value;
      RunStartedBy(plan, front, g, mono);
      StepStarts(plan, st, last, r, g);
      if StartedBy(front, g, mono) {
        var i :| 0 <= i < |front| && IsOf(front[i], Start, g) && front[i].mono <= mono;
        assert IsOf(rs[i], Start, g);
      }
      if StartedBy(rs, g, mono) {
        var i :| 0 <= i < |rs| && IsOf(rs[i], Start, g) && rs[i].mono <= mono;
        assert i < last ==> IsOf(front[i], Start, g);
      }
    }
  }

  lemma StepStarts(plan: Plan, st: State, i: nat, r: JournalRecord, g: nat)
    requires |st.lives| == plan.Count() && g < plan.Count() && Step(plan, st, i, r).Some?
    ensures
      Step(plan, st, i, r).value.lives[g].started ==
      if IsOf(r, Start, g) then Some(Mark(i, r.mono)) else st.lives[g].started
    ensures IsOf(r, Start, g) ==> st.lives[g].started.None?
  {
    hide Step;
    StepHolds(plan, st, i, r, Start, g);
    StepLives(plan, st, i, r);
  }

  // ----- each record is accepted exactly when it is permitted -----

  ghost predicate Reached(plan: Plan, rs: seq<JournalRecord>, st: State) {
    Run(plan, rs) == Some(st)
  }

  /** The marks of a generation in a reached state. */
  lemma MarksMean(plan: Plan, rs: seq<JournalRecord>, st: State, g: nat)
    requires Reached(plan, rs, st) && |st.lives| == plan.Count() && g < plan.Count()
    ensures LifeOrdered(st.lives[g], |rs|)
    ensures Past(st.lives[g].launch, |rs|) == st.lives[g].launch.Some? == Happened(rs, Launch, g)
    ensures Past(st.lives[g].started, |rs|) == st.lives[g].started.Some? == Happened(rs, Start, g)
    ensures Past(st.lives[g].terminal, |rs|) == st.lives[g].terminal.Some? == Happened(rs, Terminate, g)
    ensures Past(st.lives[g].exited, |rs|) == st.lives[g].exited.Some? == Happened(rs, Exit, g)
  {
    hide Run, Happened, Pipeline, Promotions, NeighboursAt;
    RunKeepsInv(plan, rs);
    RunHolds(plan, rs, Launch, g);
    RunHolds(plan, rs, Start, g);
    RunHolds(plan, rs, Terminate, g);
    RunHolds(plan, rs, Exit, g);
  }

  lemma TerminalMeansPromoted(plan: Plan, rs: seq<JournalRecord>, st: State, g: nat)
    requires Reached(plan, rs, st) && |st.lives| == plan.Count() && 0 < g < plan.Count() && g !in st.promoted
    ensures st.lives[g].terminal.None?
  {
    hide Run, Pipeline, Ordered;
    RunKeepsInv(plan, rs);
    TerminalIsPromoted(plan, st, g);
  }

  lemma ConsumeMeans(plan: Plan, rs: seq<JournalRecord>, st: State, key: Key)
    requires Reached(plan, rs, st)
    ensures Consume(st, key).Some? <==> Unspent(rs, key)
  {
    hide Run, Available;
    RunBalances(plan, rs, key);
  }

  lemma LaunchExactly(plan: Plan, rs: seq<JournalRecord>, st: State, g: nat, mono: nat, durationS: nat, source: Option<Key>)
    requires Reached(plan, rs, st) && |st.lives| == plan.Count() && g < plan.Count()
    ensures StepLaunch(plan, st, Mark(|rs|, mono), g, durationS, source).Some? <==> MayLaunch(plan, rs, g, durationS, source)
  {
    hide Run, Happened, Inv, IsWarm, Reached, IsCandidate, Leads, Consume, Unspent, LifeOrdered;
    RunKeeps(plan, rs, st);
    MarksMean(plan, rs, st, g);
    if source.Some? {
      ConsumeMeans(plan, rs, st, source.value);
    }
    if g > 0 {
      SlotsOf(plan, rs, st, g - 1);
      MarksMean(plan, rs, st, g - 1);
      RunningNotExited(st.lives[g - 1], |rs|);
    }
    if g > 1 {
      SlotsOf(plan, rs, st, g - 2);
    }
    if st.lives[g].launch.None? {
      UnlaunchedSlots(plan, st, |rs|, g);
    }
  }

  lemma RunKeeps(plan: Plan, rs: seq<JournalRecord>, st: State)
    requires Reached(plan, rs, st)
    ensures Inv(plan, st, |rs|)
  {
    hide Run;
    RunKeepsInv(plan, rs);
  }

  lemma SlotsOf(plan: Plan, rs: seq<JournalRecord>, st: State, g: nat)
    requires Reached(plan, rs, st)
    ensures st.active == Some(g) <==> Leads(rs, g)
    ensures st.pending == Some(g) <==> IsCandidate(rs, g)
    ensures st.warmed == Some(g) <==> IsWarm(rs, g)
  {
    hide Run;
    SlotsMean(plan, rs, g);
  }

  lemma RunningNotExited(life: Lifecycle, n: nat)
    requires LifeOrdered(life, n)
    ensures life.exited.Some? ==> life.terminal.Some?
  {
  }

  /** While a generation is not launched, no slot at or past it is filled. */
  lemma UnlaunchedSlots(plan: Plan, st: State, n: nat, g: nat)
    requires Inv(plan, st, n) && g < plan.Count() && |st.lives| == plan.Count() && st.lives[g].launch.None?
    ensures g == 0 ==> st.active.None? && st.pending.None? && st.warmed.None?
    ensures g > 0 && st.active == Some(g - 1) ==> st.pending.None? && st.warmed.None?
    ensures g > 1 && st.active == Some(g - 2) ==> st.warmed.None? || st.pending.None?
  {
    hide Ordered, Promotions;
  }

  lemma StartExactly(plan: Plan, rs: seq<JournalRecord>, st: State, g: nat, mono: nat, process: ProcessStart)
    requires Reached(plan, rs, st) && |st.lives| == plan.Count() && g < plan.Count()
    ensures StepStarted(plan, st, Mark(|rs|, mono), g, process).Some? <==> MayStart(plan, rs, g, mono, process)
  {
    hide Reached, Happened, LifeOrdered, Past;
    MarksMean(plan, rs, st, g);
    if g > 0 {
      MarksMean(plan, rs, st, g - 1);
    }
  }

  lemma TerminalExactly(plan: Plan, rs: seq<JournalRecord>, st: State, g: nat, mono: nat, complete: bool)
    requires Reached(plan, rs, st) && |st.lives| == plan.Count() && g < plan.Count()
    requires Running(rs, g)
    ensures StepTerminal(plan, st, Mark(|rs|, mono), g, complete).Some? <==> complete && MayTerminate(plan, rs, g, mono)
  {
    hide Run, Happened, LifeOrdered, StartedBy;
    MarksMean(plan, rs, st, g);
    RunHolds(plan, rs, Promote, g);
    if g + 1 < plan.Count() {
      MarksMean(plan, rs, st, g + 1);
      RunStartedBy(plan, rs, g + 1, mono);
    }
  }

  lemma AnnounceExactly(plan: Plan, rs: seq<JournalRecord>, st: State, g: nat, id: ShutdownId)
    requires Reached(plan, rs, st) && |st.lives| == plan.Count() && g < plan.Count()
    requires Running(rs, g)
    ensures StepDurable(plan, st, g, id).Some? <==> MayAnnounce(plan, rs, g, id)
  {
    hide Run, Happened, LifeOrdered, Observed, Available, ReportedBy;
    MarksMean(plan, rs, st, g);
    RunningNotExited(st.lives[g], |rs|);
    RunObserves(plan, rs, g, id.stream);
    RunBalances(plan, rs, (g, id.epoch));
    CountsFit(plan, rs, (g, id.epoch), g, id.stream);
  }

  /** The two counters stay in 64 bits. */
  lemma {:induction false} CountsFit(plan: Plan, rs: seq<JournalRecord>, key: Key, g: nat, stream: StreamKind)
    requires Run(plan, rs).Some?
    ensures Available(Run(plan, rs).value, key) <= U64_MAX && Observed(Run(plan, rs).value, (g, stream)) <= U64_MAX
  {
    hide Step, StepDurable, Available, Observed, Announces, Disposes, ReportsStream;
    if rs == [] {
      NothingCounted(plan, key, (g, stream));
    } else {
      var last := |rs| - 1;
      var st, r := Run(plan, rs[..last]).value, rs[last];
      CountsFit(plan, rs[..last], key, g, stream);
      StepBalances(plan, st, last, r, key);
      StepObserves(plan, st, last, r, g, stream);
      NewCountFits(plan, st, last, r, key, g, stream);
    }
  }

  lemma NothingCounted(plan: Plan, key: Key, streamKey: (nat, StreamKind))
    ensures Available(Initial(plan), key) == 0 && Observed(Initial(plan), streamKey) == 0
  {
  }

  lemma NewCountFits(plan: Plan, st: State, i: nat, r: JournalRecord, key: Key, g: nat, stream: StreamKind)
    requires |st.lives| == plan.Count() && Step(plan, st, i, r).Some?
    ensures Announces(r, key) ==> Available(st, key) != U64_MAX
    ensures ReportsStream(r, g, stream) ==> Observed(st, (g, stream)) != U64_MAX
  {
    hide Available, Observed, AllowedOn;
  }

  lemma NoteExactly(plan: Plan, rs: seq<JournalRecord>, st: State, g: nat, epoch: string, ignored: bool)
    requires Reached(plan, rs, st) && |st.lives| == plan.Count() && g < plan.Count()
    ensures StepNote(plan, st, g, epoch, ignored).Some? <==> MayNote(plan, rs, g, epoch, ignored)
  {
    hide Reached, Leads, IsCandidate, Consume, Unspent, Inv;
    RunKeeps(plan, rs, st);
    SlotsOf(plan, rs, st, g);
    SlotsOf(plan, rs, st, g + 1);
    ConsumeMeans(plan, rs, st, (g, epoch));
    PendingIsNext(plan, st, |rs|);
  }

  lemma PendingIsNext(plan: Plan, st: State, n: nat)
    requires Inv(plan, st, n)
    ensures st.pending.Some? ==> st.active.Some? && st.pending.value == st.active.value + 1
  {
    hide Ordered, Promotions;
  }

  lemma ProveExactly(plan: Plan, rs: seq<JournalRecord>, st: State, g: nat, predecessor: nat)
    requires Reached(plan, rs, st) && |st.lives| == plan.Count() && g < plan.Count()
    ensures StepProof(plan, st, |rs|, g, predecessor).Some? <==> MayProve(rs, g, predecessor)
  {
    hide Run, Happened, LifeOrdered, Leads, Inv, IsCandidate, IsWarm, Past;
    RunKeeps(plan, rs, st);
    if g == predecessor + 1 {
      RunHolds(plan, rs, Prove, g);
      RunHolds(plan, rs, Register, g);
      SlotsOf(plan, rs, st, predecessor);
      MarksMean(plan, rs, st, predecessor);
      MarksMean(plan, rs, st, g);
      RegisteredIsPending(plan, rs, st, g);
    }
  }

  /** A registered successor of the leader has started and is the candidate. */
  lemma RegisteredIsPending(plan: Plan, rs: seq<JournalRecord>, st: State, g: nat)
    requires Reached(plan, rs, st) && |st.lives| == plan.Count() && g < plan.Count()
    ensures 0 < g && g in st.registered ==> st.lives[g].started.Some?
    ensures 0 < g && g in st.registered && st.active == Some(g - 1) ==> st.pending == Some(g)
  {
    hide Run, Happened, Inv, LaunchedAhead, Ordered, Pipeline, Promotions;
    RunKeeps(plan, rs, st);
    if 0 < g && g in st.registered {
      RunHolds(plan, rs, Register, g);
      SlotsOf(plan, rs, st, g);
      RegisteredIsLaunched(plan, st, |rs|, g);
      RegisteredIsStarted(plan, st, |rs|, g);
      PendingSlot(plan, st, |rs|, g);
    }
  }

  lemma RegisteredIsStarted(plan: Plan, st: State, n: nat, g: nat)
    requires Inv(plan, st, n) && g in st.registered
    ensures g < |st.lives| && st.lives[g].started.Some?
  {
    hide Pipeline, Ordered, PredecessorExited;
  }

  lemma PromoteExactly(plan: Plan, rs: seq<JournalRecord>, st: State, g: nat, predecessor: nat, proof: string)
    requires Reached(plan, rs, st) && |st.lives| == plan.Count() && g < plan.Count()
    ensures StepPromoted(plan, st, g, predecessor, proof).Some? <==> MayPromote(plan, rs, g, predecessor, proof)
  {
    hide Run, Happened, Inv, IsCandidate, IsWarm;
    if g == predecessor + 1 {
      RunHolds(plan, rs, Prove, g);
      RunHolds(plan, rs, Register, g);
      RunHolds(plan, rs, Promote, g);
      SlotsOf(plan, rs, st, predecessor);
      RegisteredIsPending(plan, rs, st, g);
      if g !in st.promoted {
        TerminalMeansPromoted(plan, rs, st, g);
      }
    }
  }

  lemma ActivateExactly(plan: Plan, rs: seq<JournalRecord>, st: State, g: nat)
    requires Reached(plan, rs, st) && |st.lives| == plan.Count() && g < plan.Count()
    ensures StepInitialActive(plan, st, |rs|, g).Some? <==> g == 0 && Happened(rs, Start, 0) && !Happened(rs, Activate, 0)
  {
    hide Run, Happened, LifeOrdered, Past;
    MarksMean(plan, rs, st, 0);
    RunHolds(plan, rs, Activate, 0);
  }

  lemma RegisterExactly(plan: Plan, rs: seq<JournalRecord>, st: State, g: nat)
    requires Reached(plan, rs, st) && |st.lives| == plan.Count() && g < plan.Count()
    ensures
      StepCandidate(plan, st, |rs|, g).Some? <==>
      g > 0 && Leads(rs, g - 1) && Happened(rs, Start, g) && !Happened(rs, Register, g)
  {
    hide Run, Happened, Inv, IsCandidate, IsWarm, Leads, Past;
    RunKeeps(plan, rs, st);
    if g > 0 {
      MarksMean(plan, rs, st, g);
      RunHolds(plan, rs, Register, g);
      SlotsOf(plan, rs, st, g - 1);
      PendingSlot(plan, st, |rs|, g);
      PendingIsNext(plan, st, |rs|);
    }
  }

  lemma ExitExactly(plan: Plan, rs: seq<JournalRecord>, st: State, g: nat, mono: nat, success: bool)
    requires Reached(plan, rs, st) && |st.lives| == plan.Count() && g < plan.Count()
    ensures
      StepExited(plan, st, Mark(|rs|, mono), g, success).Some? <==>
      success && Happened(rs, Terminate, g) && !Happened(rs, Exit, g)
  {
    hide Reached, Happened, LifeOrdered, Past;
    MarksMean(plan, rs, st, g);
  }

  lemma GenerationExactly(plan: Plan, rs: seq<JournalRecord>, st: State, r: JournalRecord, g: nat)
    requires Reached(plan, rs, st) && |st.lives| == plan.Count() && g < plan.Count() && r.generation == Some(g)
    requires FromChild(r.event) && !r.event.ProcessStarted? ==> Running(rs, g)
    requires AllowedOn(r.channel, r.event)
    requires FromChild(r.event) ==> r.session == Some(plan.generations[g].sessionId)
    ensures StepGeneration(plan, st, |rs|, r.mono, g, r.event).Some? <==> PermittedOf(plan, rs, r, g)
  {
    hide StepLaunch, StepStarted, StepTerminal, StepExited, StepDurable, StepNote, StepProof, StepPromoted, StepInitialActive;
    hide StepCandidate, MayLaunch, MayStart, MayTerminate, MayAnnounce, MayNote, MayProve, MayPromote, Reached, Leads, Happened;
    match r.event
    case Launched(durationS, source) => LaunchExactly(plan, rs, st, g, r.mono, durationS, source);
    case ShutdownDurable(id) => AnnounceExactly(plan, rs, st, g, id);
    case ShutdownIgnored(epoch) => NoteExactly(plan, rs, st, g, epoch, true);
    case ShutdownAlreadyPending(epoch) => NoteExactly(plan, rs, st, g, epoch, false);
    case ProcessStarted(process) => StartExactly(plan, rs, st, g, r.mono, process);
    case ProcessTerminal(complete) => TerminalExactly(plan, rs, st, g, r.mono, complete);
    case GenerationExited(success) => ExitExactly(plan, rs, st, g, r.mono, success);
    case HandoverProofStarted(predecessor) => ProveExactly(plan, rs, st, g, predecessor);
    case HandoverPromoted(predecessor, proof) => PromoteExactly(plan, rs, st, g, predecessor, proof);
    case InitialActiveRegistered => ActivateExactly(plan, rs, st, g);
    case CandidateRegistered => RegisterExactly(plan, rs, st, g);
    case _ =>
  }

  /** What a permitted record of a generation says of its channel, session and child. */
  lemma PermittedIsAdmitted(plan: Plan, rs: seq<JournalRecord>, r: JournalRecord, g: nat)
    requires g < plan.Count() && r.generation == Some(g) && PermittedOf(plan, rs, r, g)
    ensures Admitted(plan, r)
    ensures FromChild(r.event) && !r.event.ProcessStarted? ==> Running(rs, g)
  {
    hide MayLaunch, MayStart, MayNote, MayProve, MayPromote, Leads, Happened;
  }

  /** The verifier accepts a record after the ones before it exactly when it is permitted. */
  lemma {:induction false} StepExactly(plan: Plan, rs: seq<JournalRecord>, st: State, r: JournalRecord)
    requires Reached(plan, rs, st) && |st.lives| == plan.Count()
    ensures Step(plan, st, |rs|, r).Some? <==> Permitted(plan, rs, r)
  {
    hide Reached, PermittedOf, StepGeneration, Happened, LifeOrdered;
    if r.generation.Some? && r.generation.value < plan.Count() {
      var g := r.generation.value;
      MarksMean(plan, rs, st, g);
      if PermittedOf(plan, rs, r, g) {
        PermittedIsAdmitted(plan, rs, r, g);
        GenerationExactly(plan, rs, st, r, g);
      } else if Step(plan, st, |rs|, r).Some? {
        GenerationExactly(plan, rs, st, r, g);
      }
    }
  }

  /** A journal runs exactly when each record is permitted by the ones before it. */
  lemma {:induction false} RunsExactly(plan: Plan, rs: seq<JournalRecord>)
    ensures Run(plan, rs).Some? <==> forall i :: 0 <= i < |rs| ==> Permitted(plan, rs[..i], rs[i])
  {
    hide Permitted, Step;
    if rs != [] {
      var last := |rs| - 1;
      var front := rs[..last];
      RunsExactly(plan, front);
      forall i | 0 <= i < last ensures Permitted(plan, front[..i], front[i]) == Permitted(plan, rs[..i], rs[i]) {
        assert front[..i] == rs[..i];
      }
      if Run(plan, front).Some? {
        StepExactly(plan, front, Run(plan, front).value, rs[last]);
      }
      if forall i :: 0 <= i < |rs| ==> Permitted(plan, rs[..i], rs[i]) {
        forall i | 0 <= i < last ensures Permitted(plan, front[..i], front[i]) {
          assert Permitted(plan, rs[..i], rs[i]);
        }
      }
    }
  }

  // ----- the notes -----

  /** A note that runs ignores a generation that does not lead, or a leader whose candidate is pending. */
  lemma {:induction false} NotesMean(plan: Plan, rs: seq<JournalRecord>, i: nat, g: nat)
    requires Run(plan, rs).Some? && i < |rs| && rs[i].generation == Some(g)
    ensures rs[i].event.ShutdownIgnored? ==> !Leads(rs[..i], g) && At(plan, rs, i).active != Some(g)
    ensures rs[i].event.ShutdownAlreadyPending? ==>
              && Leads(rs[..i], g) && IsCandidate(rs[..i], g + 1)
              && At(plan, rs, i).active == Some(g) && At(plan, rs, i).pending.Some?
  {
    hide Leads, IsCandidate, Run, Inv, OwnEpoch, Unspent, OfSupervisor;
    RunsExactly(plan, rs);
    assert Permitted(plan, rs[..i], rs[i]);
    PrefixRuns(plan, rs, i);
    SlotsMean(plan, rs[..i], g);
    SlotsMean(plan, rs[..i], g + 1);
  }

  /** A note of its own epoch with an announcement to spend is accepted in that lifecycle. */
  lemma {:induction false} NoteIsAccepted(plan: Plan, rs: seq<JournalRecord>, r: JournalRecord, g: nat, epoch: string)
    requires Run(plan, rs).Some? && g < plan.Count() && r.generation == Some(g) && r.channel == Supervisor
    requires epoch == plan.generations[g].depthEpoch || epoch == plan.generations[g].tradeEpoch
    requires Announced(rs, (g, epoch)) > Disposed(rs, (g, epoch))
    ensures r.event == ShutdownIgnored(epoch) && !Leads(rs, g) ==> Run(plan, rs + [r]).Some?
    ensures r.event == ShutdownAlreadyPending(epoch) && Leads(rs, g) && IsCandidate(rs, g + 1) ==> Run(plan, rs + [r]).Some?
  {
    hide Leads, IsCandidate, Step;
    var all := rs + [r];
    assert all[..|rs|] == rs;
    StepExactly(plan, rs, Run(plan, rs).value, r);
  }
}
