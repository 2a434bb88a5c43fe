/**
  What every run of the campaign journal keeps: the generation pipeline, the order of lifecycle
  records, the chain of promotions and the conservation of shutdown events.
 */
module CampaignRuns {
  import opened Wrappers
  import opened Campaign
  import opened Coverage

  // ----- the pipeline of generations -----

  function Filled(slot: Option<nat>): nat {
    if slot.Some? then 1 else 0
  }

  /** The number of generations launched so far, read off the three slots. */
  function Frontier(st: State): nat {
    if st.active.Some? then st.active.value + 1 + Filled(st.pending) + Filled(st.warmed)
    else if |st.lives| > 0 && st.lives[0].launch.Some? then 1 else 0
  }

  /**
    Pending is empty or the generation after the active one; warmed is empty or the next unfilled
    slot; the launched generations are exactly those below the frontier.
   */
  ghost predicate Pipeline(plan: Plan, st: State) {
    && |st.lives| == plan.Count()
    && Slots(st)
    && Frontier(st) <= plan.Count()
    && (forall g :: 0 <= g < plan.Count() ==> (st.lives[g].launch.Some? <==> g < Frontier(st)))
  }

  ghost predicate Slots(st: State) {
    && (st.initialActive <==> st.active.Some?)
    && (st.active.None? ==> st.pending.None? && st.warmed.None?)
    && (st.active.Some? && st.pending.Some? ==> st.pending.value == st.active.value + 1)
    && (st.active.Some? && st.warmed.Some? ==> st.warmed.value == st.active.value + 1 + Filled(st.pending))
  }

  /** The marks of one generation are in lifecycle order and lie before the position `n`. */
  ghost predicate LifeOrdered(life: Lifecycle, n: nat) {
    && (life.started.Some? ==> life.launch.Some? && life.launch.value.record < life.started.value.record)
    && (life.terminal.Some? ==> life.started.Some? && life.started.value.record < life.terminal.value.record)
    && (life.exited.Some? ==> life.terminal.Some? && life.terminal.value.record < life.exited.value.record)
    && (life.launch.Some? ==> life.launch.value.record < n)
    && (life.started.Some? ==> life.started.value.record < n)
    && (life.terminal.Some? ==> life.terminal.value.record < n)
    && (life.exited.Some? ==> life.exited.value.record < n)
  }

  /** Neighbours launch, start and terminate in index order, and a successor starts first. */
  ghost predicate NeighboursOrdered(p: Lifecycle, s: Lifecycle) {
    && (s.launch.Some? ==> p.launch.Some? && p.launch.value.record < s.launch.value.record)
    && (s.started.Some? ==> p.started.Some? && p.started.value.record < s.started.value.record)
    && (s.terminal.Some? ==> p.exited.Some? && p.terminal.Some? && p.terminal.value.record < s.terminal.value.record)
    && (p.terminal.Some? ==> s.started.Some? && s.started.value.record < p.terminal.value.record
                             && s.started.value.mono <= p.terminal.value.mono)
  }

  ghost predicate NeighboursAt(lives: seq<Lifecycle>, g: nat)
    requires 0 < g < |lives|
  {
    NeighboursOrdered(lives[g - 1], lives[g])
  }

  ghost predicate Ordered(lives: seq<Lifecycle>, n: nat) {
    && (forall g :: 0 <= g < |lives| ==> LifeOrdered(lives[g], n))
    && (forall g :: 0 < g < |lives| ==> NeighboursAt(lives, g))
  }

  /** The promoted generations are exactly those from 1 to the active one, each after a proof. */
  ghost predicate Promotions(plan: Plan, st: State) {
    && (forall g :: g in st.promoted <==> st.active.Some? && 1 <= g <= st.active.value)
    && (forall g :: g in st.promoted ==> g in plan.proofs && st.promoted[g] == plan.proofs[g])
    && (forall g :: g in st.promoted ==> g in st.proofStarted)
    && (forall g :: g in st.proofStarted ==> PredecessorExited(st.lives, g))
    && (st.active.Some? ==> st.active.value < |st.lives| && st.lives[st.active.value].started.Some?)
    && (forall g :: 0 < g < |st.lives| && st.lives[g].terminal.Some? ==> g in st.promoted)
    && (forall g :: g in st.registered ==> g < |st.lives| && st.lives[g].started.Some?)
  }

  ghost predicate PredecessorExited(lives: seq<Lifecycle>, g: nat) {
    0 < g < |lives| && lives[g - 1].exited.Some?
  }

  ghost predicate Inv(plan: Plan, st: State, n: nat) {
    Pipeline(plan, st) && Ordered(st.lives, n) && Promotions(plan, st)
  }

  lemma InitialInv(plan: Plan)
    ensures Inv(plan, Initial(plan), 0)
  {
  }

  /** The records that touch no lifecycle mark, slot or promotion keep the invariant. */
  lemma UntouchedKeepsInv(plan: Plan, st: State, st': State, n: nat)
    requires Inv(plan, st, n)
    requires st'.lives == st.lives && st'.active == st.active && st'.pending == st.pending && st'.warmed == st.warmed
    requires st'.initialActive == st.initialActive && st'.registered == st.registered
    requires st'.proofStarted == st.proofStarted && st'.promoted == st.promoted
    ensures Inv(plan, st', n + 1)
  {
    hide Ordered, PredecessorExited;
    OrderedLater(st.lives, n);
  }

  lemma LaunchKeepsPipeline(plan: Plan, st: State, mark: Mark, g: nat, durationS: nat, source: Option<(nat, string)>)
    requires Inv(plan, st, mark.record) && g < plan.Count()
    requires StepLaunch(plan, st, mark, g, durationS, source).Some?
    ensures Pipeline(plan, StepLaunch(plan, st, mark, g, durationS, source).value)
    ensures g == Frontier(st) && Frontier(StepLaunch(plan, st, mark, g, durationS, source).value) == g + 1
  {
    hide Promotions, Ordered;
  }

  lemma LaunchKeepsOrder(plan: Plan, st: State, mark: Mark, g: nat, durationS: nat, source: Option<(nat, string)>)
    requires Inv(plan, st, mark.record) && g < plan.Count()
    requires StepLaunch(plan, st, mark, g, durationS, source).Some?
    ensures Ordered(StepLaunch(plan, st, mark, g, durationS, source).value.lives, mark.record + 1)
  {
    hide Promotions;
    LaunchKeepsPipeline(plan, st, mark, g, durationS, source);
    assert LifeOrdered(st.lives[g], mark.record);
    if g > 0 {
      assert NeighboursAt(st.lives, g) && LifeOrdered(st.lives[g - 1], mark.record);
    }
    if g + 1 < |st.lives| {
      assert NeighboursAt(st.lives, g + 1);
    }
    MarkKeepsOrder(st.lives, st.lives[g].(launch := Some(mark)), g, mark.record);
  }

  lemma LaunchKeepsPromotions(plan: Plan, st: State, mark: Mark, g: nat, durationS: nat, source: Option<(nat, string)>)
    requires Inv(plan, st, mark.record) && g < plan.Count()
    requires StepLaunch(plan, st, mark, g, durationS, source).Some?
    ensures Promotions(plan, StepLaunch(plan, st, mark, g, durationS, source).value)
  {
    hide Ordered, PredecessorExited;
    assert st.lives[g].terminal.Some? && g > 0 ==> g in st.promoted;
    MarkKeepsPromotions(plan, st, st.lives[g].(launch := Some(mark)), g);
  }

  /** Replacing one lifecycle keeps the order when it fits its own order and its neighbours'. */
  lemma MarkKeepsOrder(lives: seq<Lifecycle>, life: Lifecycle, g: nat, n: nat)
    requires Ordered(lives, n) && g < |lives|
    requires LifeOrdered(life, n + 1)
    requires g > 0 ==> NeighboursOrdered(lives[g - 1], life)
    requires g + 1 < |lives| ==> NeighboursOrdered(life, lives[g + 1])
    ensures Ordered(lives[g := life], n + 1)
  {
    hide NeighboursOrdered;
    var after := lives[g := life];
    forall h | 0 < h < |after| ensures NeighboursAt(after, h) {
      if h != g && h - 1 != g {
        assert NeighboursAt(lives, h);
      }
    }
  }

  /** A started, terminal or exited mark leaves the pipeline alone. */
  lemma MarkKeepsPipeline(plan: Plan, st: State, life: Lifecycle, g: nat)
    requires Pipeline(plan, st) && g < |st.lives| && life.launch == st.lives[g].launch
    ensures Pipeline(plan, st.(lives := st.lives[g := life]))
  {
  }

  /** New marks keep the promotions unless they terminate a generation never promoted. */
  lemma MarkKeepsPromotions(plan: Plan, st: State, life: Lifecycle, g: nat)
    requires Promotions(plan, st) && g < |st.lives|
    requires st.lives[g].started.Some? ==> life.started.Some?
    requires st.lives[g].exited.Some? ==> life.exited.Some?
    requires life.terminal.Some? && g > 0 ==> g in st.promoted
    ensures Promotions(plan, st.(lives := st.lives[g := life]))
  {
    hide PredecessorExited;
    forall h | h in st.proofStarted ensures PredecessorExited(st.lives[g := life], h) {
      ExitIsKept(st.lives, life, g, h);
    }
  }

  lemma ExitIsKept(lives: seq<Lifecycle>, life: Lifecycle, g: nat, h: nat)
    requires g < |lives| && PredecessorExited(lives, h) && (lives[g].exited.Some? ==> life.exited.Some?)
    ensures PredecessorExited(lives[g := life], h)
  {
  }

  lemma StartedKeepsInv(plan: Plan, st: State, mark: Mark, g: nat, process: ProcessStart)
    requires Inv(plan, st, mark.record) && g < plan.Count() && StepStarted(plan, st, mark, g, process).Some?
    ensures Inv(plan, StepStarted(plan, st, mark, g, process).value, mark.record + 1)
  {
    hide Pipeline, Promotions;
    PipelineSize(plan, st);
    var life := st.lives[g].(started := Some(mark));
    assert LifeOrdered(st.lives[g], mark.record);
    if g + 1 < |st.lives| {
      assert NeighboursAt(st.lives, g + 1);
    }
    if g > 0 {
      assert NeighboursAt(st.lives, g) && LifeOrdered(st.lives[g - 1], mark.record);
    }
    MarkKeepsOrder(st.lives, life, g, mark.record);
    MarkKeepsPipeline(plan, st, life, g);
    MarkKeepsPromotions(plan, st, life, g);
  }

  lemma PromotedAfterExit(plan: Plan, st: State, g: nat)
    requires Promotions(plan, st) && g in st.promoted
    ensures 0 < g < |st.lives| && st.lives[g - 1].exited.Some?
  {
    assert g in st.proofStarted;
    assert PredecessorExited(st.lives, g);
  }

  lemma TerminalKeepsInv(plan: Plan, st: State, mark: Mark, g: nat, complete: bool)
    requires Inv(plan, st, mark.record) && g < plan.Count() && StepTerminal(plan, st, mark, g, complete).Some?
    ensures Inv(plan, StepTerminal(plan, st, mark, g, complete).value, mark.record + 1)
  {
    hide Pipeline, Promotions;
    PipelineSize(plan, st);
    var life := st.lives[g].(terminal := Some(mark));
    assert LifeOrdered(st.lives[g], mark.record);
    if g > 0 {
      assert NeighboursAt(st.lives, g) && LifeOrdered(st.lives[g - 1], mark.record);
      PromotedAfterExit(plan, st, g);
    }
    if g + 1 < |st.lives| {
      assert NeighboursAt(st.lives, g + 1);
    }
    MarkKeepsOrder(st.lives, life, g, mark.record);
    MarkKeepsPipeline(plan, st, life, g);
    MarkKeepsPromotions(plan, st, life, g);
  }

  lemma TerminalIsPromoted(plan: Plan, st: State, g: nat)
    requires Promotions(plan, st) && 0 <= g < |st.lives|
    ensures g > 0 && st.lives[g].terminal.Some? ==> g in st.promoted
  {
  }

  lemma ExitedKeepsInv(plan: Plan, st: State, mark: Mark, g: nat, success: bool)
    requires Inv(plan, st, mark.record) && g < plan.Count() && StepExited(plan, st, mark, g, success).Some?
    ensures Inv(plan, StepExited(plan, st, mark, g, success).value, mark.record + 1)
  {
    hide Pipeline, Promotions;
    PipelineSize(plan, st);
    TerminalIsPromoted(plan, st, g);
    var life := st.lives[g].(exited := Some(mark));
    assert LifeOrdered(st.lives[g], mark.record);
    if g > 0 {
      assert NeighboursAt(st.lives, g);
    }
    if g + 1 < |st.lives| {
      assert NeighboursAt(st.lives, g + 1);
    }
    MarkKeepsOrder(st.lives, life, g, mark.record);
    MarkKeepsPipeline(plan, st, life, g);
    MarkKeepsPromotions(plan, st, life, g);
  }

  lemma PipelineSlots(plan: Plan, st: State)
    requires Pipeline(plan, st)
    ensures Slots(st)
  {
  }

  lemma PipelineSize(plan: Plan, st: State)
    requires Pipeline(plan, st)
    ensures |st.lives| == plan.Count()
  {
  }

  lemma OrderedLater(lives: seq<Lifecycle>, n: nat)
    requires Ordered(lives, n)
    ensures Ordered(lives, n + 1)
  {
  }

  lemma ProofKeepsInv(plan: Plan, st: State, i: nat, g: nat, predecessor: nat)
    requires Inv(plan, st, i) && g < plan.Count() && StepProof(plan, st, i, g, predecessor).Some?
    ensures Inv(plan, StepProof(plan, st, i, g, predecessor).value, i + 1)
  {
    hide Ordered, PredecessorExited;
    OrderedLater(st.lives, i);
    ExitedPredecessor(st.lives, g);
  }

  lemma ExitedPredecessor(lives: seq<Lifecycle>, g: nat)
    requires 0 < g < |lives| && lives[g - 1].exited.Some?
    ensures PredecessorExited(lives, g)
  {
  }

  lemma PromotedKeepsInv(plan: Plan, st: State, i: nat, g: nat, predecessor: nat, proof: string)
    requires Inv(plan, st, i) && g < plan.Count() && StepPromoted(plan, st, g, predecessor, proof).Some?
    ensures Inv(plan, StepPromoted(plan, st, g, predecessor, proof).value, i + 1)
  {
    hide Ordered, PredecessorExited;
    OrderedLater(st.lives, i);
  }

  lemma InitialActiveKeepsInv(plan: Plan, st: State, i: nat, g: nat)
    requires Inv(plan, st, i) && g < plan.Count() && StepInitialActive(plan, st, i, g).Some?
    ensures Inv(plan, StepInitialActive(plan, st, i, g).value, i + 1)
  {
    hide NeighboursOrdered, PredecessorExited;
    assert LifeOrdered(st.lives[0], i);
    OrderedLater(st.lives, i);
  }

  lemma CandidateKeepsInv(plan: Plan, st: State, i: nat, g: nat)
    requires Inv(plan, st, i) && g < plan.Count() && StepCandidate(plan, st, i, g).Some?
    ensures Inv(plan, StepCandidate(plan, st, i, g).value, i + 1)
  {
    hide Ordered, PredecessorExited, Pipeline, Promotions;
    PipelineSize(plan, st);
    OrderedLater(st.lives, i);
    CandidateKeepsPipeline(plan, st, i, g);
    CandidateKeepsPromotions(plan, st, i, g);
  }

  lemma CandidateKeepsPipeline(plan: Plan, st: State, i: nat, g: nat)
    requires Pipeline(plan, st) && g < plan.Count() && StepCandidate(plan, st, i, g).Some?
    ensures Pipeline(plan, StepCandidate(plan, st, i, g).value)
  {
  }

  lemma CandidateKeepsPromotions(plan: Plan, st: State, i: nat, g: nat)
    requires |st.lives| == plan.Count() && Promotions(plan, st) && g < plan.Count() && StepCandidate(plan, st, i, g).Some?
    ensures Promotions(plan, StepCandidate(plan, st, i, g).value)
  {
    hide PredecessorExited;
  }

  lemma {:induction false} StepKeepsInv(plan: Plan, st: State, i: nat, r: JournalRecord)
    requires |st.lives| == plan.Count() && Inv(plan, st, i) && Step(plan, st, i, r).Some?
    ensures Inv(plan, Step(plan, st, i, r).value, i + 1)
  {
    hide Pipeline, Ordered, Promotions, StepLaunch, StepStarted, StepTerminal, StepExited, StepProof, StepPromoted;
    hide StepInitialActive, StepCandidate, AllowedOn;
    var mark, after := Mark(i, r.mono), Step(plan, st, i, r).value;
    match r.event
    case Launched(durationS, source) =>
      LaunchKeepsPipeline(plan, st, mark, r.generation.value, durationS, source);
      LaunchKeepsOrder(plan, st, mark, r.generation.value, durationS, source);
      LaunchKeepsPromotions(plan, st, mark, r.generation.value, durationS, source);
    case ProcessStarted(process) => StartedKeepsInv(plan, st, mark, r.generation.value, process);
    case ProcessTerminal(complete) => TerminalKeepsInv(plan, st, mark, r.generation.value, complete);
    case GenerationExited(success) => ExitedKeepsInv(plan, st, mark, r.generation.value, success);
    case HandoverProofStarted(predecessor) => ProofKeepsInv(plan, st, i, r.generation.value, predecessor);
    case HandoverPromoted(predecessor, proof) => PromotedKeepsInv(plan, st, i, r.generation.value, predecessor, proof);
    case InitialActiveRegistered => InitialActiveKeepsInv(plan, st, i, r.generation.value);
    case CandidateRegistered => CandidateKeepsInv(plan, st, i, r.generation.value);
    case _ => UntouchedKeepsInv(plan, st, after, i);
  }

  lemma {:induction false} RunKeepsInv(plan: Plan, rs: seq<JournalRecord>)
    requires Run(plan, rs).Some?
    ensures Inv(plan, Run(plan, rs).value, |rs|)
  {
    hide Inv, Step;
    if rs == [] {
      InitialInv(plan);
    } else {
      var last := |rs| - 1;
      RunKeepsInv(plan, rs[..last]);
      var st := Run(plan, rs[..last]).value;
      StepKeepsInv(plan, st, last, rs[last]);
    }
  }

  /** A prefix of a journal that runs also runs. */
  lemma {:induction false} PrefixRuns(plan: Plan, rs: seq<JournalRecord>, i: nat)
    requires i <= |rs| && Run(plan, rs).Some?
    ensures Run(plan, rs[..i]).Some?
  {
    hide Step;
    if Run(plan, rs[..i]).None? {
      RunStops(plan, rs, i);
    }
  }

  /** The state before the record at position `i`. */
  ghost function At(plan: Plan, rs: seq<JournalRecord>, i: nat): (st: State)
    requires i <= |rs| && Run(plan, rs).Some?
    ensures |st.lives| == plan.Count() && Inv(plan, st, i)
  {
    PrefixRuns(plan, rs, i);
    RunKeepsInv(plan, rs[..i]);
    Run(plan, rs[..i]).value
  }

  lemma AtSteps(plan: Plan, rs: seq<JournalRecord>, i: nat)
    requires i < |rs| && Run(plan, rs).Some?
    ensures Step(plan, At(plan, rs, i), i, rs[i]) == Some(At(plan, rs, i + 1))
  {
    hide Step, Inv;
    PrefixRuns(plan, rs, i + 1);
    assert rs[..i + 1][..i] == rs[..i];
  }

  // ----- launches and promotions -----

  /** How many generations have been active so far. */
  function Rank(st: State): nat {
    if st.active.None? then 0 else st.active.value + 1
  }

  lemma StepRank(plan: Plan, st: State, i: nat, r: JournalRecord)
    requires |st.lives| == plan.Count() && Inv(plan, st, i) && Step(plan, st, i, r).Some?
    ensures
      var st' := Step(plan, st, i, r).value;
      Rank(st') == Rank(st) + (if r.event.InitialActiveRegistered? || r.event.HandoverPromoted? then 1 else 0)
  {
    hide Ordered, Promotions, Pipeline, Observed, Available, IsEpoch, StepLaunch, StepDurable, Consume, AllowedOn, IsExpected;
    PipelineSlots(plan, st);
    match r.event
    case Launched(durationS, source) => LaunchKeepsActive(plan, st, Mark(i, r.mono), r.generation.value, durationS, source);
    case ShutdownDurable(id) => DurableKeepsSlots(plan, st, r.generation.value, id);
    case ShutdownIgnored(epoch) => ConsumeKeepsSlots(st, (r.generation.value, epoch));
    case ShutdownAlreadyPending(epoch) => ConsumeKeepsSlots(st, (r.generation.value, epoch));
    case HandoverPromoted(_, _) =>
    case InitialActiveRegistered =>
    case CandidateRegistered =>
    case _ =>
  }

  lemma FirstLaunchedBeforeStarted(plan: Plan, st: State, i: nat)
    requires Inv(plan, st, i)
    ensures |st.lives| > 0 && st.lives[0].started.Some? ==> st.lives[0].launch.Some?
  {
    assert |st.lives| > 0 ==> LifeOrdered(st.lives[0], i);
  }

  /** Only a launch moves the frontier; the other records shift generations between slots. */
  lemma OtherRecordsKeepFrontier(plan: Plan, st: State, i: nat, r: JournalRecord)
    requires |st.lives| == plan.Count() && Slots(st) && Step(plan, st, i, r).Some? && !r.event.Launched?
    requires |st.lives| > 0 && st.lives[0].started.Some? ==> st.lives[0].launch.Some?
    ensures Frontier(Step(plan, st, i, r).value) == Frontier(st)
  {
    hide AllowedOn, StepLaunch, StepDurable, Consume, StepStarted, StepTerminal, StepExited, StepPromoted, StepInitialActive,
         StepCandidate, IsEpoch, Frontier;
    var mark := Mark(i, r.mono);
    match r.event
    case ShutdownDurable(id) => DurableKeepsSlots(plan, st, r.generation.value, id);
    case ShutdownIgnored(epoch) =>
      ConsumeKeepsSlots(st, (r.generation.value, epoch));
      SameFrontier(st, Step(plan, st, i, r).value);
    case ShutdownAlreadyPending(epoch) =>
      ConsumeKeepsSlots(st, (r.generation.value, epoch));
      SameFrontier(st, Step(plan, st, i, r).value);
    case ProcessStarted(process) => StartedKeepsFrontier(plan, st, mark, r.generation.value, process);
    case ProcessTerminal(complete) => TerminalKeepsFrontier(plan, st, mark, r.generation.value, complete);
    case GenerationExited(success) => ExitedKeepsFrontier(plan, st, mark, r.generation.value, success);
    case HandoverPromoted(predecessor, proof) => PromotedKeepsFrontier(plan, st, r.generation.value, predecessor, proof);
    case InitialActiveRegistered => InitialActiveKeepsFrontier(plan, st, i, r.generation.value);
    case CandidateRegistered => CandidateKeepsFrontier(plan, st, i, r.generation.value);
    case HandoverProofStarted(_) => SameFrontier(st, Step(plan, st, i, r).value);
    case ChildStatus => SameFrontier(st, Step(plan, st, i, r).value);
    case CampaignStarted(_, _) => SameFrontier(st, Step(plan, st, i, r).value);
    case EvaluationPrepared => SameFrontier(st, Step(plan, st, i, r).value);
    case CampaignCommitted(_, _) => SameFrontier(st, Step(plan, st, i, r).value);
    case _ =>
  }

  lemma SameFrontier(st: State, st': State)
    requires st'.active == st.active && st'.pending == st.pending && st'.warmed == st.warmed && st'.lives == st.lives
    ensures Frontier(st') == Frontier(st)
  {
  }

  lemma StartedKeepsFrontier(plan: Plan, st: State, mark: Mark, g: nat, process: ProcessStart)
    requires |st.lives| == plan.Count() && g < plan.Count()
    ensures
      var next := StepStarted(plan, st, mark, g, process);
      next.Some? ==> Frontier(next.value) == Frontier(st)
  {
    hide IsExpected;
  }

  lemma TerminalKeepsFrontier(plan: Plan, st: State, mark: Mark, g: nat, complete: bool)
    requires |st.lives| == plan.Count() && g < plan.Count()
    ensures
      var next := StepTerminal(plan, st, mark, g, complete);
      next.Some? ==> Frontier(next.value) == Frontier(st)
  {
  }

  lemma ExitedKeepsFrontier(plan: Plan, st: State, mark: Mark, g: nat, success: bool)
    requires |st.lives| == plan.Count() && g < plan.Count()
    ensures
      var next := StepExited(plan, st, mark, g, success);
      next.Some? ==> Frontier(next.value) == Frontier(st)
  {
  }

  lemma PromotedKeepsFrontier(plan: Plan, st: State, g: nat, predecessor: nat, proof: string)
    requires |st.lives| == plan.Count() && g < plan.Count() && Slots(st)
    ensures
      var next := StepPromoted(plan, st, g, predecessor, proof);
      next.Some? ==> Frontier(next.value) == Frontier(st)
  {
  }

  lemma InitialActiveKeepsFrontier(plan: Plan, st: State, i: nat, g: nat)
    requires |st.lives| == plan.Count() && g < plan.Count() && Slots(st)
    requires st.lives[0].started.Some? ==> st.lives[0].launch.Some?
    ensures
      var next := StepInitialActive(plan, st, i, g);
      next.Some? ==> Frontier(next.value) == Frontier(st)
  {
  }

  lemma CandidateKeepsFrontier(plan: Plan, st: State, i: nat, g: nat)
    requires |st.lives| == plan.Count() && g < plan.Count() && Slots(st)
    ensures
      var next := StepCandidate(plan, st, i, g);
      next.Some? ==> Frontier(next.value) == Frontier(st)
  {
  }

  lemma ConsumeKeepsSlots(st: State, key: (nat, string))
    ensures
      var next := Consume(st, key);
      next.Some? ==> next.value == st.(available := next.value.available)
  {
  }

  lemma DurableKeepsSlots(plan: Plan, st: State, g: nat, id: ShutdownId)
    requires |st.lives| == plan.Count() && g < plan.Count()
    ensures
      var next := StepDurable(plan, st, g, id);
      next.Some? ==> Frontier(next.value) == Frontier(st) && next.value.active == st.active
  {
    hide Observed, Available;
  }

  lemma LaunchKeepsActive(plan: Plan, st: State, mark: Mark, g: nat, durationS: nat, source: Option<(nat, string)>)
    requires |st.lives| == plan.Count() && g < plan.Count()
    ensures
      var next := StepLaunch(plan, st, mark, g, durationS, source);
      next.Some? ==> next.value.active == st.active
  {
    hide Available, IsEpoch, Consume;
    if source.Some? {
      ConsumeKeepsSlots(st, source.value);
    }
  }

  lemma StepFrontier(plan: Plan, st: State, i: nat, r: JournalRecord)
    requires |st.lives| == plan.Count() && Inv(plan, st, i) && Step(plan, st, i, r).Some?
    ensures
      var st' := Step(plan, st, i, r).value;
      if r.event.Launched?
      then r.generation == Some(Frontier(st)) && Frontier(st') == Frontier(st) + 1
      else Frontier(st') == Frontier(st)
  {
    hide Promotions, Ordered, Pipeline, Slots, Frontier, StepLaunch;
    if r.event.Launched? {
      LaunchKeepsPipeline(plan, st, Mark(i, r.mono), r.generation.value, r.event.durationS, r.event.source);
    } else {
      PipelineSlots(plan, st);
      FirstLaunchedBeforeStarted(plan, st, i);
      OtherRecordsKeepFrontier(plan, st, i, r);
    }
  }

  /**
    One record of an accepted journal: the active generation stays or moves to the next index, a
    launch is of the next index in order, and launches run at most two ahead of the active one.
   */
  lemma {:induction false} PipelineAdvances(plan: Plan, rs: seq<JournalRecord>, i: nat)
    requires i < |rs| && Run(plan, rs).Some?
    ensures
      var st, st' := At(plan, rs, i), At(plan, rs, i + 1);
      && Rank(st) <= Rank(st') <= Rank(st) + 1
      && (rs[i].event.Launched? ==> rs[i].generation == Some(Frontier(st)) && Frontier(st') == Frontier(st) + 1)
      && (!rs[i].event.Launched? ==> Frontier(st') == Frontier(st))
      && Frontier(st') <= (if st'.active.None? then 1 else st'.active.value + 3)
  {
    hide Step, Ordered, Promotions;
    AtSteps(plan, rs, i);
    StepRank(plan, At(plan, rs, i), i, rs[i]);
    StepFrontier(plan, At(plan, rs, i), i, rs[i]);
  }

  lemma {:induction false} RankIsMonotone(plan: Plan, rs: seq<JournalRecord>, i: nat, j: nat)
    requires i <= j <= |rs| && Run(plan, rs).Some?
    ensures Rank(At(plan, rs, i)) <= Rank(At(plan, rs, j))
    decreases j
  {
    hide Rank, Frontier, Inv;
    if i < j {
      RankIsMonotone(plan, rs, i, j - 1);
      PipelineAdvances(plan, rs, j - 1);
    }
  }

  lemma {:induction false} RankIsReached(plan: Plan, rs: seq<JournalRecord>, j: nat, k: nat) returns (i: nat)
    requires j <= |rs| && Run(plan, rs).Some? && 0 < k <= Rank(At(plan, rs, j))
    ensures i < j && Rank(At(plan, rs, i)) == k - 1 && Rank(At(plan, rs, i + 1)) == k
  {
    hide Step, Inv;
    assert rs[..0] == [];
    if j > 0 {
      PipelineAdvances(plan, rs, j - 1);
      if k <= Rank(At(plan, rs, j - 1)) {
        i := RankIsReached(plan, rs, j - 1, k);
      } else {
        i := j - 1;
      }
    }
  }

  /**
    Along an accepted journal every generation becomes active at exactly one record, right after
    its predecessor was active, and stays active until its successor takes over.
   */
  lemma {:induction false} EachGenerationOnce(plan: Plan, rs: seq<JournalRecord>, g: nat) returns (i: nat)
    requires Accepted(plan, rs) && g < plan.Count()
    ensures i < |rs|
    ensures At(plan, rs, i).active == (if g == 0 then None else Some((g - 1) as nat))
    ensures At(plan, rs, i + 1).active == Some(g)
    ensures forall j :: 0 <= j <= i ==> Rank(At(plan, rs, j)) <= g
    ensures forall j :: i < j <= |rs| ==> Rank(At(plan, rs, j)) > g
  {
    hide Step, Inv, IdentitiesOk, ShutdownsSettled, TimingOk;
    assert rs[..|rs|] == rs;
    i := RankIsReached(plan, rs, |rs|, g + 1);
    forall j | 0 <= j <= i ensures Rank(At(plan, rs, j)) <= g {
      RankIsMonotone(plan, rs, j, i);
    }
    forall j | i < j <= |rs| ensures Rank(At(plan, rs, j)) > g {
      RankIsMonotone(plan, rs, i + 1, j);
    }
  }

  // ----- lifecycle marks over a run -----

  /** The mark as a state before position `i` holds it. */
  function Before(mark: Option<Mark>, i: nat): Option<Mark> {
    if Past(mark, i) then mark else None
  }

  ghost predicate LifeBefore(early: Lifecycle, late: Lifecycle, i: nat) {
    && early.launch == Before(late.launch, i) && early.started == Before(late.started, i)
    && early.terminal == Before(late.terminal, i) && early.exited == Before(late.exited, i)
  }

  /** One mark is set at position `i`, none is changed. */
  ghost predicate OneMark(life: Lifecycle, life': Lifecycle, mark: Mark) {
    || (life.launch.None? && life' == life.(launch := Some(mark)))
    || (life.started.None? && life' == life.(started := Some(mark)))
    || (life.terminal.None? && life' == life.(terminal := Some(mark)))
    || (life.exited.None? && life' == life.(exited := Some(mark)))
  }

  lemma LaunchLives(plan: Plan, st: State, mark: Mark, g: nat, durationS: nat, source: Option<(nat, string)>)
    requires |st.lives| == plan.Count() && g < plan.Count() && StepLaunch(plan, st, mark, g, durationS, source).Some?
    ensures
      && st.lives[g].launch.None?
      && StepLaunch(plan, st, mark, g, durationS, source).value.lives ==
         st.lives[g := st.lives[g].(launch := Some(mark))]
  {
  }

  lemma StepLives(plan: Plan, st: State, i: nat, r: JournalRecord)
    requires |st.lives| == plan.Count() && Step(plan, st, i, r).Some?
    ensures
      var lives' := Step(plan, st, i, r).value.lives;
      || lives' == st.lives
      || (r.generation.Some? && r.generation.value < |st.lives|
          && lives' == st.lives[r.generation.value := lives'[r.generation.value]]
          && OneMark(st.lives[r.generation.value], lives'[r.generation.value], Mark(i, r.mono)))
  {
    hide IsEpoch, Observed, Available, StepLaunch, AllowedOn, IsExpected;
    match r.event
    case Launched(durationS, source) => LaunchLives(plan, st, Mark(i, r.mono), r.generation.value, durationS, source);
    case ProcessStarted(_) =>
    case ProcessTerminal(_) =>
    case GenerationExited(_) =>
    case _ =>
  }

  /** A record sets a mark at most once, at its own position. */
  lemma StepMarks(plan: Plan, st: State, i: nat, r: JournalRecord, g: nat)
    requires |st.lives| == plan.Count() && g < plan.Count() && Step(plan, st, i, r).Some?
    requires LifeOrdered(st.lives[g], i)
    ensures LifeBefore(st.lives[g], Step(plan, st, i, r).value.lives[g], i)
  {
    hide Step, LifeOrdered;
    StepLives(plan, st, i, r);
    var life' := Step(plan, st, i, r).value.lives[g];
    if life' != st.lives[g] {
      NewMarkIsLater(st.lives[g], life', Mark(i, r.mono), i);
    } else {
      MarksAreEarlier(life', i);
    }
  }

  lemma NewMarkIsLater(life: Lifecycle, life': Lifecycle, mark: Mark, i: nat)
    requires LifeOrdered(life, i) && OneMark(life, life', mark) && mark.record == i
    ensures LifeBefore(life, life', i)
  {
  }

  lemma MarksAreEarlier(life: Lifecycle, i: nat)
    requires LifeOrdered(life, i)
    ensures LifeBefore(life, life, i)
  {
  }

  lemma BeforeTwice(a: Lifecycle, b: Lifecycle, c: Lifecycle, i: nat, j: nat)
    requires LifeBefore(a, b, i) && LifeBefore(b, c, j) && i <= j
    ensures LifeBefore(a, c, i)
  {
  }

  /** The marks of a generation at position `i` are the final marks set before `i`. */
  lemma {:induction false} MarksAt(plan: Plan, rs: seq<JournalRecord>, i: nat, j: nat, g: nat)
    requires i <= j <= |rs| && Run(plan, rs).Some? && g < plan.Count()
    ensures LifeBefore(At(plan, rs, i).lives[g], At(plan, rs, j).lives[g], i)
    decreases j
  {
    hide Step, Pipeline, Promotions, NeighboursAt, LifeOrdered, LifeBefore;
    if i < j {
      MarksAt(plan, rs, i, j - 1, g);
      AtSteps(plan, rs, j - 1);
      StepMarks(plan, At(plan, rs, j - 1), j - 1, rs[j - 1], g);
      BeforeTwice(At(plan, rs, i).lives[g], At(plan, rs, j - 1).lives[g], At(plan, rs, j).lives[g], i, j - 1);
    } else {
      assert LifeOrdered(At(plan, rs, i).lives[g], i);
      MarksAreEarlier(At(plan, rs, i).lives[g], i);
    }
  }

  // ----- some generation is always capturing -----

  predicate Alive(life: Lifecycle) {
    life.started.Some? && life.terminal.None?
  }

  /**
    In every reachable state between the first start and the last terminal, the active generation
    or the one after it is started and not terminated.
   */
  lemma {:induction false} ActiveOrNextIsAlive(plan: Plan, st: State, n: nat)
    requires Inv(plan, st, n) && plan.Count() > 0
    requires st.lives[0].started.Some? && st.lives[plan.Count() - 1].terminal.None?
    ensures
      var a := if st.active.Some? then st.active.value else 0;
      a < |st.lives| && (Alive(st.lives[a]) || (a + 1 < |st.lives| && Alive(st.lives[a + 1])))
  {
    hide Pipeline, Promotions, PredecessorExited;
    PipelineSize(plan, st);
    var a := if st.active.Some? then st.active.value else 0;
    ActiveIsStarted(plan, st);
    if a + 1 < |st.lives| {
      assert NeighboursAt(st.lives, a + 1);
      NextIsNotTerminal(plan, st, a + 1);
    }
  }

  lemma ActiveIsStarted(plan: Plan, st: State)
    requires Promotions(plan, st)
    ensures st.active.Some? ==> st.active.value < |st.lives| && st.lives[st.active.value].started.Some?
  {
    hide PredecessorExited;
  }

  /** A generation beyond the active one was never promoted, so it is not terminal. */
  lemma NextIsNotTerminal(plan: Plan, st: State, g: nat)
    requires Promotions(plan, st) && 0 < g < |st.lives| && (st.active.Some? ==> st.active.value < g)
    ensures st.lives[g].terminal.None?
  {
    hide PredecessorExited;
  }

  /**
    At every record from the first PROCESS_STARTED to the last PROCESS_TERMINAL of an accepted
    journal some generation is started and not terminal.
   */
  lemma {:induction false} AlwaysAlive(plan: Plan, rs: seq<JournalRecord>, i: nat)
    requires Accepted(plan, rs)
    requires
      var lives := Run(plan, rs).value.lives;
      lives[0].started.value.record < i <= lives[plan.Count() - 1].terminal.value.record
    ensures i < |rs| && exists g :: 0 <= g < plan.Count() && Alive(At(plan, rs, i).lives[g])
  {
    hide Step, IdentitiesOk, ShutdownsSettled, TimingOk;
    var st := Run(plan, rs).value;
    RunKeepsInv(plan, rs);
    assert LifeOrdered(st.lives[plan.Count() - 1], |rs|);
    assert rs[..|rs|] == rs;
    MarksAt(plan, rs, i, |rs|, 0);
    MarksAt(plan, rs, i, |rs|, plan.Count() - 1);
    ActiveOrNextIsAlive(plan, At(plan, rs, i), i);
  }

  /** Launches, starts and terminals of an accepted journal are in index order, one by one. */
  lemma {:induction false} LifecyclesAreOrdered(plan: Plan, rs: seq<JournalRecord>, g: nat, h: nat)
    requires Accepted(plan, rs) && g < h < plan.Count()
    ensures
      var p, s := Run(plan, rs).value.lives[g], Run(plan, rs).value.lives[h];
      && p.launch.value.record < s.launch.value.record
      && p.started.value.record < s.started.value.record
      && p.terminal.value.record < s.terminal.value.record
      && (h == g + 1 ==> s.started.value.record < p.terminal.value.record)
  {
    hide Run, Pipeline, Promotions, IdentitiesOk, ShutdownsSettled, TimingOk;
    RunKeepsInv(plan, rs);
    assert NeighboursAt(Run(plan, rs).value.lives, h);
    if g + 1 < h {
      LifecyclesAreOrdered(plan, rs, g, h - 1);
    }
  }

  /** The declared windows of an accepted journal cover the campaign from the first start on. */
  lemma {:induction false} WindowsCoverCampaign(plan: Plan, rs: seq<JournalRecord>, t: int)
    requires Accepted(plan, rs)
    requires Run(plan, rs).value.lives[0].started.value.mono <= t <= plan.totalDurationS * SECOND_NS
    ensures exists g :: 0 <= g < plan.Count() && Window(plan, Run(plan, rs).value, g).Contains(t)
  {
    hide Run, IdentitiesOk, ShutdownsSettled, GenerationSweep;
    var ws := Windows(plan, Run(plan, rs).value);
    GenerationsCoverCampaign(ws, plan.totalDurationS * SECOND_NS, t);
    var g :| 0 <= g < |ws| && ws[g].Contains(t);
    assert Window(plan, Run(plan, rs).value, g).Contains(t);
  }
}
