/**
  A verified journal of two generations: generation 1 is launched from a shutdown of generation 0,
  a shutdown of each is noted, and generation 1 takes over.
 */
module CampaignExample {
  import opened Wrappers
  import opened Streams
  import opened Powers
  import opened Campaign
  import opened Coverage

  const FIRST := ShutdownId(Depth, "depth 0", 0, 0, 1, 1, 1, "first")
  const SECOND := ShutdownId(Trade, "trade 1", 0, 0, 2, 1, 1, "second")
  const THIRD := ShutdownId(Trade, "trade 0", 0, 0, 2, 1, 1, "third")

  const PLAN := Plan("c", "startup", "manifest",
    [Generation("session 0", "BTCUSDT", "startup 0", "depth 0", "trade 0", 1, 1, 1, [FIRST, THIRD]),
     Generation("session 1", "BTCUSDT", "startup 1", "depth 1", "trade 1", 1, 0, 1, [SECOND])],
    map[1 := "proof"], 1)

  const END: nat := 1_000_000_000

  function OfCampaign(mono: nat, e: Event): JournalRecord { JournalRecord(mono, CampaignChannel, None, None, e) }

  function OfGeneration(mono: nat, channel: Channel, g: nat, e: Event): JournalRecord {
    var session := if g == 0 then "session 0" else "session 1";
    JournalRecord(mono, channel, Some(g), if channel.ChildStdout? then Some(session) else None, e)
  }

  const JOURNAL := [
    OfCampaign(0, CampaignStarted("c", "startup")),
    OfGeneration(0, CampaignChannel, 0, Launched(1, None)),
    OfGeneration(1, ChildStdout, 0, ProcessStarted(ProcessStart(0, "BTCUSDT", SPEC_REVISION, "startup 0", 7, true))),
    OfGeneration(1, Supervisor, 0, InitialActiveRegistered),
    OfGeneration(1, ChildStdout, 0, ShutdownDurable(FIRST)),
    OfGeneration(1, CampaignChannel, 1, Launched(1, Some((0, "depth 0")))),
    OfGeneration(2, ChildStdout, 1, ProcessStarted(ProcessStart(1, "BTCUSDT", SPEC_REVISION, "startup 1", 8, true))),
    OfGeneration(2, ChildStdout, 1, ShutdownDurable(SECOND)),
    OfGeneration(2, Supervisor, 1, ShutdownIgnored("trade 1")),
    OfGeneration(2, ChildStdout, 0, ShutdownDurable(THIRD)),
    OfGeneration(2, Supervisor, 0, ShutdownAlreadyPending("trade 0")),
    OfGeneration(2, Supervisor, 1, CandidateRegistered),
    OfGeneration(3, ChildStdout, 0, ProcessTerminal(true)),
    OfGeneration(3, CampaignChannel, 0, GenerationExited(true)),
    OfGeneration(3, CampaignChannel, 1, HandoverProofStarted(0)),
    OfGeneration(3, Supervisor, 1, HandoverPromoted(0, "proof")),
    OfGeneration(END, ChildStdout, 1, ProcessTerminal(true)),
    OfGeneration(END, CampaignChannel, 1, GenerationExited(true)),
    OfCampaign(END, EvaluationPrepared),
    OfCampaign(END, CampaignCommitted("campaign.json", "manifest"))]

  const NEW := Lifecycle(None, None, None, None)
  const A1 := Lifecycle(Some(Mark(1, 0)), None, None, None)
  const A2 := Lifecycle(Some(Mark(1, 0)), Some(Mark(2, 1)), None, None)
  const B1 := Lifecycle(Some(Mark(5, 1)), None, None, None)
  const B2 := Lifecycle(Some(Mark(5, 1)), Some(Mark(6, 2)), None, None)
  const A3 := Lifecycle(Some(Mark(1, 0)), Some(Mark(2, 1)), Some(Mark(12, 3)), None)
  const A4 := Lifecycle(Some(Mark(1, 0)), Some(Mark(2, 1)), Some(Mark(12, 3)), Some(Mark(13, 3)))
  const B3 := Lifecycle(Some(Mark(5, 1)), Some(Mark(6, 2)), Some(Mark(16, END)), None)
  const B4 := Lifecycle(Some(Mark(5, 1)), Some(Mark(6, 2)), Some(Mark(16, END)), Some(Mark(17, END)))

  const S0 := State([NEW, NEW], None, None, None, false, {}, {}, map[], map[], map[], {}, 0, 0, 0, None)
  const S1 := S0.(startedCount := 1)
  const S2 := S1.(lives := [A1, NEW])
  const S3 := S2.(lives := [A2, NEW])
  const S4 := S3.(initialActive := true, active := Some(0))
  const S5 := S4.(observedIds := {(0, FIRST)}, observed := map[(0, Depth) := 1], available := map[(0, "depth 0") := 1])
  const S6 := S5.(available := map[(0, "depth 0") := 0], lives := [A2, B1], pending := Some(1))
  const S7 := S6.(lives := [A2, B2])
  const S8 := S7.(
    observedIds := {(0, FIRST), (1, SECOND)}, observed := map[(0, Depth) := 1, (1, Trade) := 1],
    available := map[(0, "depth 0") := 0, (1, "trade 1") := 1])
  const S9 := S8.(available := map[(0, "depth 0") := 0, (1, "trade 1") := 0])
  const S10 := S9.(
    observedIds := {(0, FIRST), (1, SECOND), (0, THIRD)},
    observed := map[(0, Depth) := 1, (1, Trade) := 1, (0, Trade) := 1],
    available := map[(0, "depth 0") := 0, (1, "trade 1") := 0, (0, "trade 0") := 1])
  const S11 := S10.(available := map[(0, "depth 0") := 0, (1, "trade 1") := 0, (0, "trade 0") := 0])
  const S12 := S11.(registered := {1})
  const S13 := S12.(lives := [A3, B2])
  const S14 := S13.(lives := [A4, B2])
  const S15 := S14.(proofStarted := {1})
  const S16 := S15.(promoted := map[1 := "proof"], active := Some(1), pending := None)
  const S17 := S16.(lives := [A4, B3])
  const S18 := S17.(lives := [A4, B4])
  const S19 := S18.(preparedCount := 1, prepared := Some(Mark(18, END)))
  const S20 := S19.(committedCount := 1)

  lemma SetFirst(a: Lifecycle, b: Lifecycle, c: Lifecycle)
    ensures [a, b][0 := c] == [c, b]
  {
  }

  lemma SetSecond(a: Lifecycle, b: Lifecycle, c: Lifecycle)
    ensures [a, b][1 := c] == [a, c]
  {
  }

  lemma Next(rs: seq<JournalRecord>, i: nat, st: State, st': State)
    requires i < |rs| && Run(PLAN, rs[..i]) == Some(st) && |st.lives| == 2
    requires Step(PLAN, st, i, rs[i]) == Some(st')
    ensures Run(PLAN, rs[..i + 1]) == Some(st')
  {
    hide Step;
    assert rs[..i + 1][..i] == rs[..i];
  }

  lemma Opens()
    ensures Run(PLAN, JOURNAL[..0]) == Some(S0)
  {
    assert Initial(PLAN).lives == S0.lives;
  }

  // ----- each record leads from its state to the next -----

  lemma Record0()
    ensures Step(PLAN, S0, 0, JOURNAL[0]) == Some(S1)
  {
  }

  lemma Record1()
    ensures Step(PLAN, S1, 1, JOURNAL[1]) == Some(S2)
  {
    SetFirst(S1.lives[0], S1.lives[1], S2.lives[0]);
  }

  lemma Record2()
    ensures Step(PLAN, S2, 2, JOURNAL[2]) == Some(S3)
  {
    SetFirst(S2.lives[0], S2.lives[1], S3.lives[0]);
  }

  lemma Record3()
    ensures Step(PLAN, S3, 3, JOURNAL[3]) == Some(S4)
  {
  }

  lemma Record4()
    ensures Step(PLAN, S4, 4, JOURNAL[4]) == Some(S5)
  {
    assert S4.observedIds + {(0, FIRST)} == S5.observedIds;
    assert S4.observed[(0, Depth) := 1] == S5.observed;
    assert S4.available[(0, "depth 0") := 1] == S5.available;
  }

  lemma Record5()
    ensures Step(PLAN, S5, 5, JOURNAL[5]) == Some(S6)
  {
    assert S5.available[(0, "depth 0") := 0] == S6.available;
    SetSecond(S5.lives[0], S5.lives[1], S6.lives[1]);
  }

  lemma Record6()
    ensures Step(PLAN, S6, 6, JOURNAL[6]) == Some(S7)
  {
    SetSecond(S6.lives[0], S6.lives[1], S7.lives[1]);
  }

  lemma Record7()
    ensures Step(PLAN, S7, 7, JOURNAL[7]) == Some(S8)
  {
    assert S7.observedIds + {(1, SECOND)} == S8.observedIds;
    assert S7.observed[(1, Trade) := 1] == S8.observed;
    assert S7.available[(1, "trade 1") := 1] == S8.available;
  }

  lemma Record8()
    ensures Step(PLAN, S8, 8, JOURNAL[8]) == Some(S9)
  {
    assert S8.available[(1, "trade 1") := 0] == S9.available;
  }

  lemma Record9()
    ensures Step(PLAN, S9, 9, JOURNAL[9]) == Some(S10)
  {
    assert S9.observedIds + {(0, THIRD)} == S10.observedIds;
    assert S9.observed[(0, Trade) := 1] == S10.observed;
    assert S9.available[(0, "trade 0") := 1] == S10.available;
  }

  lemma Record10()
    ensures Step(PLAN, S10, 10, JOURNAL[10]) == Some(S11)
  {
    assert S10.available[(0, "trade 0") := 0] == S11.available;
  }

  lemma Record11()
    ensures Step(PLAN, S11, 11, JOURNAL[11]) == Some(S12)
  {
    assert S11.registered + {1} == S12.registered;
  }

  lemma Record12()
    ensures Step(PLAN, S12, 12, JOURNAL[12]) == Some(S13)
  {
    SetFirst(S12.lives[0], S12.lives[1], S13.lives[0]);
  }

  lemma Record13()
    ensures Step(PLAN, S13, 13, JOURNAL[13]) == Some(S14)
  {
    SetFirst(S13.lives[0], S13.lives[1], S14.lives[0]);
  }

  lemma Record14()
    ensures Step(PLAN, S14, 14, JOURNAL[14]) == Some(S15)
  {
    assert S14.proofStarted + {1} == S15.proofStarted;
  }

  lemma Record15()
    ensures Step(PLAN, S15, 15, JOURNAL[15]) == Some(S16)
  {
    assert S15.promoted[1 := "proof"] == S16.promoted;
  }

  lemma Record16()
    ensures Step(PLAN, S16, 16, JOURNAL[16]) == Some(S17)
  {
    SetSecond(S16.lives[0], S16.lives[1], S17.lives[1]);
  }

  lemma Record17()
    ensures Step(PLAN, S17, 17, JOURNAL[17]) == Some(S18)
  {
    SetSecond(S17.lives[0], S17.lives[1], S18.lives[1]);
  }

  lemma Record18()
    ensures Step(PLAN, S18, 18, JOURNAL[18]) == Some(S19)
  {
  }

  lemma Record19()
    ensures Step(PLAN, S19, 19, JOURNAL[19]) == Some(S20)
  {
  }

  lemma PlanIsOk()
    ensures IdentitiesOk(PLAN)
  {
    TokensOfTwo(PLAN.generations[0], PLAN.generations[1]);
    CountsOfTwo(FIRST, THIRD);
    CountsOfOne(SECOND);
    assert FIRST != THIRD;
  }

  lemma TokensOfTwo(a: Generation, b: Generation)
    ensures Tokens([a, b]) == [a.sessionId, a.depthEpoch, a.tradeEpoch, b.sessionId, b.depthEpoch, b.tradeEpoch]
  {
    assert [a, b][..1] == [a] && [a][..0] == [];
    assert Tokens([a]) == [a.sessionId, a.depthEpoch, a.tradeEpoch];
  }

  lemma CountsOfOne(a: ShutdownId)
    ensures CountStream([a], Depth) == (if a.stream.Depth? then 1 else 0)
    ensures CountStream([a], Trade) == (if a.stream.Trade? then 1 else 0)
  {
    assert [a][..0] == [];
  }

  lemma CountsOfTwo(a: ShutdownId, b: ShutdownId)
    ensures CountStream([a, b], Depth) == (if a.stream.Depth? then 1 else 0) + (if b.stream.Depth? then 1 else 0)
    ensures CountStream([a, b], Trade) == (if a.stream.Trade? then 1 else 0) + (if b.stream.Trade? then 1 else 0)
  {
    assert [a, b][..1] == [a];
    CountsOfOne(a);
  }

  lemma TimingIsOk()
    ensures AllComplete(S20) && TimingOk(PLAN, S20)
  {
    var ws := Windows(PLAN, S20);
    assert ws[0] == GenerationWindow(1, 1) && ws[1] == GenerationWindow(2, 1);
    assert Continues(ws, 0) && Continues(ws, 1);
    GenerationSweepMeans(ws, END);
  }

  lemma JournalRuns()
    ensures Run(PLAN, JOURNAL) == Some(S20)
  {
    hide Run, Step;
    Opens();
    Record0();
    Next(JOURNAL, 0, S0, S1);
    Record1();
    Next(JOURNAL, 1, S1, S2);
    Record2();
    Next(JOURNAL, 2, S2, S3);
    Record3();
    Next(JOURNAL, 3, S3, S4);
    Record4();
    Next(JOURNAL, 4, S4, S5);
    Record5();
    Next(JOURNAL, 5, S5, S6);
    Record6();
    Next(JOURNAL, 6, S6, S7);
    Record7();
    Next(JOURNAL, 7, S7, S8);
    Record8();
    Next(JOURNAL, 8, S8, S9);
    Record9();
    Next(JOURNAL, 9, S9, S10);
    Record10();
    Next(JOURNAL, 10, S10, S11);
    Record11();
    Next(JOURNAL, 11, S11, S12);
    Record12();
    Next(JOURNAL, 12, S12, S13);
    Record13();
    Next(JOURNAL, 13, S13, S14);
    Record14();
    Next(JOURNAL, 14, S14, S15);
    Record15();
    Next(JOURNAL, 15, S15, S16);
    Record16();
    Next(JOURNAL, 16, S16, S17);
    Record17();
    Next(JOURNAL, 17, S17, S18);
    Record18();
    Next(JOURNAL, 18, S18, S19);
    Record19();
    Next(JOURNAL, 19, S19, S20);
    assert JOURNAL[..20] == JOURNAL;
  }

  lemma LifecycleIsComplete()
    ensures LifecycleComplete(PLAN, S20) && Terminals(PLAN, JOURNAL)
  {
  }

  lemma ShutdownsAreSettled()
    ensures ShutdownsSettled(PLAN, S20)
  {
    forall g, id | 0 <= g < 2 && id in PLAN.generations[g].rawShutdowns ensures (g, id) in S20.observedIds {
      assert id == FIRST || id == SECOND || id == THIRD;
    }
  }

  /** The journal verifies, with a launch, a handover and a note of each kind. */
  lemma {:induction false} JournalIsAccepted()
    ensures Accepted(PLAN, JOURNAL)
    ensures exists i :: 0 <= i < |JOURNAL| && JOURNAL[i].event.ShutdownIgnored?
    ensures exists i :: 0 <= i < |JOURNAL| && JOURNAL[i].event.ShutdownAlreadyPending?
  {
    hide Run, IdentitiesOk, TimingOk, LifecycleComplete, ShutdownsSettled, Terminals;
    JournalRuns();
    PlanIsOk();
    LifecycleIsComplete();
    ShutdownsAreSettled();
    TimingIsOk();
    assert JOURNAL[8].event.ShutdownIgnored? && JOURNAL[10].event.ShutdownAlreadyPending?;
  }
}
