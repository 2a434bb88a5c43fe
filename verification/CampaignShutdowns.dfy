/**
  Conservation of shutdown events: every durable serverShutdown record of an accepted journal is
  consumed by exactly one later disposition.
 */
module CampaignShutdowns {
  import opened Wrappers
  import opened Streams
  import opened Campaign
  import opened CampaignRuns

  /** A generation and a connection epoch. */
  type Key = (nat, string)

  /** The record announces a durable shutdown event of this generation and epoch. */
  predicate Announces(r: JournalRecord, key: Key) {
    r.event.ShutdownDurable? && r.generation == Some(key.0) && r.event.id.epoch == key.1
  }

  /** The record disposes of one: a launch from it, or a note that no launch follows. */
  predicate Disposes(r: JournalRecord, key: Key) {
    match r.event
    case Launched(_, source) => source == Some(key)
    case ShutdownIgnored(epoch) => r.generation == Some(key.0) && epoch == key.1
    case ShutdownAlreadyPending(epoch) => r.generation == Some(key.0) && epoch == key.1
    case _ => false
  }

  function Announced(rs: seq<JournalRecord>, key: Key): nat {
    if rs == [] then 0
    else Announced(rs[..|rs| - 1], key) + (if Announces(rs[|rs| - 1], key) then 1 else 0)
  }

  function Disposed(rs: seq<JournalRecord>, key: Key): nat {
    if rs == [] then 0
    else Disposed(rs[..|rs| - 1], key) + (if Disposes(rs[|rs| - 1], key) then 1 else 0)
  }

  /** One record balances the available count of every key, and a disposition needs a count. */
  lemma StepBalances(plan: Plan, st: State, i: nat, r: JournalRecord, key: Key)
    requires |st.lives| == plan.Count() && Step(plan, st, i, r).Some?
    ensures
      Available(Step(plan, st, i, r).value, key) + (if Disposes(r, key) then 1 else 0)
      == Available(st, key) + (if Announces(r, key) then 1 else 0)
    ensures Disposes(r, key) ==> Available(st, key) > 0
  {
    hide StepDurable, StepLaunch, Consume, Available, AllowedOn, IsExpected, IsEpoch;
    var after := Step(plan, st, i, r).value;
    match r.event
    case ShutdownDurable(id) => DurableBalances(plan, st, r.generation.value, id, key);
    case Launched(durationS, source) => LaunchBalances(plan, st, Mark(i, r.mono), r.generation.value, durationS, source, key);
    case ShutdownIgnored(epoch) => ConsumeBalances(st, (r.generation.value, epoch), key);
    case ShutdownAlreadyPending(epoch) => ConsumeBalances(st, (r.generation.value, epoch), key);
    case _ => SameBalance(st, after, key);
  }

  lemma SameBalance(st: State, st': State, key: Key)
    requires st'.available == st.available
    ensures Available(st', key) == Available(st, key)
  {
  }

  lemma DurableBalances(plan: Plan, st: State, g: nat, id: ShutdownId, key: Key)
    requires |st.lives| == plan.Count() && g < plan.Count() && StepDurable(plan, st, g, id).Some?
    ensures Available(StepDurable(plan, st, g, id).value, key) ==
            Available(st, key) + (if key == (g, id.epoch) then 1 else 0)
  {
  }

  lemma ConsumeBalances(st: State, spent: Key, key: Key)
    requires Consume(st, spent).Some?
    ensures Available(st, spent) > 0
    ensures Available(Consume(st, spent).value, key) + (if key == spent then 1 else 0) == Available(st, key)
  {
  }

  lemma LaunchBalances(plan: Plan, st: State, mark: Mark, g: nat, durationS: nat, source: Option<Key>, key: Key)
    requires |st.lives| == plan.Count() && g < plan.Count()
    requires StepLaunch(plan, st, mark, g, durationS, source).Some?
    ensures
      Available(StepLaunch(plan, st, mark, g, durationS, source).value, key) + (if source == Some(key) then 1 else 0)
      == Available(st, key)
    ensures source == Some(key) ==> Available(st, key) > 0
  {
    hide Available, Consume, IsEpoch;
    var after := StepLaunch(plan, st, mark, g, durationS, source).value;
    if source.Some? {
      ConsumeBalances(st, source.value, key);
      SameBalance(Consume(st, source.value).value, after, key);
    } else {
      SameBalance(st, after, key);
    }
  }

  /** What is available is what was announced and not yet disposed of. */
  lemma {:induction false} RunBalances(plan: Plan, rs: seq<JournalRecord>, key: Key)
    requires Run(plan, rs).Some?
    ensures Available(Run(plan, rs).value, key) + Disposed(rs, key) == Announced(rs, key)
  {
    hide Step, Announces, Disposes;
    if rs != [] {
      var last := |rs| - 1;
      RunBalances(plan, rs[..last], key);
      StepBalances(plan, Run(plan, rs[..last]).value, last, rs[last], key);
    }
  }

  lemma {:induction false} AnnouncedIsMonotone(rs: seq<JournalRecord>, i: nat, j: nat, key: Key)
    requires i <= j <= |rs|
    ensures Announced(rs[..i], key) <= Announced(rs[..j], key)
    decreases j
  {
    if i < j {
      AnnouncedIsMonotone(rs, i, j - 1, key);
      assert rs[..j][..j - 1] == rs[..j - 1];
    }
  }

  lemma {:induction false} DisposedIsMonotone(rs: seq<JournalRecord>, i: nat, j: nat, key: Key)
    requires i <= j <= |rs|
    ensures Disposed(rs[..i], key) <= Disposed(rs[..j], key)
    decreases j
  {
    if i < j {
      DisposedIsMonotone(rs, i, j - 1, key);
      assert rs[..j][..j - 1] == rs[..j - 1];
    }
  }

  lemma {:induction false} AnnouncementOfRank(rs: seq<JournalRecord>, j: nat, key: Key, rank: nat) returns (q: nat)
    requires j <= |rs| && rank < Announced(rs[..j], key)
    ensures q < j && Announces(rs[q], key) && Announced(rs[..q], key) == rank
  {
    assert rs[..0] == [];
    if j > 0 {
      assert rs[..j][..j - 1] == rs[..j - 1];
      if rank < Announced(rs[..j - 1], key) {
        q := AnnouncementOfRank(rs, j - 1, key, rank);
      } else {
        q := j - 1;
      }
    }
  }

  lemma {:induction false} DispositionOfRank(rs: seq<JournalRecord>, j: nat, key: Key, rank: nat) returns (p: nat)
    requires j <= |rs| && rank < Disposed(rs[..j], key)
    ensures p < j && Disposes(rs[p], key) && Disposed(rs[..p], key) == rank
  {
    assert rs[..0] == [];
    if j > 0 {
      assert rs[..j][..j - 1] == rs[..j - 1];
      if rank < Disposed(rs[..j - 1], key) {
        p := DispositionOfRank(rs, j - 1, key, rank);
      } else {
        p := j - 1;
      }
    }
  }

  /** The announcement at `q` is the one consumed at `p`: same key, same rank within the key. */
  ghost predicate Consumes(rs: seq<JournalRecord>, q: nat, p: nat, key: Key)
    requires q < |rs| && p < |rs|
  {
    Announces(rs[q], key) && Disposes(rs[p], key) && Announced(rs[..q], key) == Disposed(rs[..p], key)
  }

  /**
    No disposition occurs without an earlier unused event: in every journal that runs, a
    disposition consumes exactly one announcement of its own generation and epoch, an earlier one.
   */
  lemma {:induction false} DispositionHasItsEvent(plan: Plan, rs: seq<JournalRecord>, p: nat, key: Key) returns (q: nat)
    requires Run(plan, rs).Some? && p < |rs| && Disposes(rs[p], key)
    ensures q < p && Consumes(rs, q, p, key)
    ensures forall k :: 0 <= k < |rs| && Consumes(rs, k, p, key) ==> k == q
  {
    hide Step, Announces, Disposes, Inv;
    AtSteps(plan, rs, p);
    StepBalances(plan, At(plan, rs, p), p, rs[p], key);
    PrefixRuns(plan, rs, p);
    RunBalances(plan, rs[..p], key);
    q := AnnouncementOfRank(rs, p, key, Disposed(rs[..p], key));
    forall k | 0 <= k < |rs| && Consumes(rs, k, p, key) ensures k == q {
      AnnouncementsDiffer(rs, k, q, key);
      AnnouncementsDiffer(rs, q, k, key);
    }
  }

  lemma AnnouncementsDiffer(rs: seq<JournalRecord>, i: nat, j: nat, key: Key)
    requires i < |rs| && j < |rs| && Announces(rs[i], key)
    ensures i < j ==> Announced(rs[..i], key) < Announced(rs[..j], key)
  {
    if i < j {
      assert rs[..i + 1][..i] == rs[..i];
      AnnouncedIsMonotone(rs, i + 1, j, key);
    }
  }

  lemma DispositionsDiffer(rs: seq<JournalRecord>, i: nat, j: nat, key: Key)
    requires i < |rs| && j < |rs| && Disposes(rs[i], key)
    ensures i < j ==> Disposed(rs[..i], key) < Disposed(rs[..j], key)
  {
    if i < j {
      assert rs[..i + 1][..i] == rs[..i];
      DisposedIsMonotone(rs, i + 1, j, key);
    }
  }

  /**
    Nothing is left over: in an accepted journal every durable shutdown record is consumed by
    exactly one disposition, and that one comes later.
   */
  lemma {:induction false} EventHasItsDisposition(plan: Plan, rs: seq<JournalRecord>, q: nat, key: Key) returns (p: nat)
    requires Accepted(plan, rs) && q < |rs| && Announces(rs[q], key)
    ensures q < p < |rs| && Consumes(rs, q, p, key)
    ensures forall k :: 0 <= k < |rs| && Consumes(rs, q, k, key) ==> k == p
  {
    hide Run, Announces, Disposes, TimingOk, LifecycleComplete, IdentitiesOk;
    RunBalances(plan, rs, key);
    assert rs[..|rs|] == rs;
    AnnouncementStrict(rs, q, key);
    p := DispositionOfRank(rs, |rs|, key, Announced(rs[..q], key));
    var k := DispositionHasItsEvent(plan, rs, p, key);
    AnnouncementsDiffer(rs, k, q, key);
    AnnouncementsDiffer(rs, q, k, key);
    forall k | 0 <= k < |rs| && Consumes(rs, q, k, key) ensures k == p {
      DispositionsDiffer(rs, k, p, key);
      DispositionsDiffer(rs, p, k, key);
    }
  }

  lemma AnnouncementStrict(rs: seq<JournalRecord>, q: nat, key: Key)
    requires q < |rs| && Announces(rs[q], key)
    ensures Announced(rs[..q], key) < Announced(rs, key)
  {
    assert rs[..q + 1][..q] == rs[..q] && rs[..|rs|] == rs;
    AnnouncedIsMonotone(rs, q + 1, |rs|, key);
  }

  // ----- the raw identities -----

  predicate Reports(r: JournalRecord, g: nat, id: ShutdownId) {
    r.generation == Some(g) && r.event == ShutdownDurable(id)
  }

  predicate IsRaw(plan: Plan, g: nat, id: ShutdownId) {
    g < plan.Count() && id in plan.generations[g].rawShutdowns
  }

  predicate ReportsStream(r: JournalRecord, g: nat, stream: StreamKind) {
    r.generation == Some(g) && r.event.ShutdownDurable? && r.event.id.stream == stream
  }

  function ReportedStream(rs: seq<JournalRecord>, g: nat, stream: StreamKind): nat {
    if rs == [] then 0
    else ReportedStream(rs[..|rs| - 1], g, stream) + (if ReportsStream(rs[|rs| - 1], g, stream) then 1 else 0)
  }

  lemma StepObserves(plan: Plan, st: State, i: nat, r: JournalRecord, g: nat, stream: StreamKind)
    requires |st.lives| == plan.Count() && Step(plan, st, i, r).Some?
    ensures
      var st' := Step(plan, st, i, r).value;
      && Observed(st', (g, stream)) == Observed(st, (g, stream)) + (if ReportsStream(r, g, stream) then 1 else 0)
      && (forall id :: (g, id) in st'.observedIds <==> (g, id) in st.observedIds || Reports(r, g, id))
      && (forall id :: Reports(r, g, id) ==> (g, id) !in st.observedIds)
      && (forall id :: Reports(r, g, id) ==> IsRaw(plan, g, id))
  {
    hide StepDurable;
    if r.event.ShutdownDurable? {
      DurableObserves(plan, st, r.mono, r.generation.value, r.event.id, g, stream);
    } else {
      OthersKeepObserved(plan, st, i, r);
    }
  }

  lemma DurableObserves(plan: Plan, st: State, mono: nat, from: nat, id: ShutdownId, g: nat, stream: StreamKind)
    requires |st.lives| == plan.Count() && from < plan.Count() && StepDurable(plan, st, from, id).Some?
    ensures
      var st' := StepDurable(plan, st, from, id).value;
      && Observed(st', (g, stream)) == Observed(st, (g, stream)) + (if from == g && id.stream == stream then 1 else 0)
      && st'.observedIds == st.observedIds + {(from, id)}
      && (from, id) !in st.observedIds && id in plan.generations[from].rawShutdowns
  {
  }

  lemma OthersKeepObserved(plan: Plan, st: State, i: nat, r: JournalRecord)
    requires |st.lives| == plan.Count() && Step(plan, st, i, r).Some? && !r.event.ShutdownDurable?
    ensures Step(plan, st, i, r).value.observed == st.observed
    ensures Step(plan, st, i, r).value.observedIds == st.observedIds
  {
    hide Available, IsEpoch, StepDurable, StepLaunch, Consume, AllowedOn, IsExpected;
    match r.event
    case Launched(durationS, source) =>
      LaunchKeepsObserved(plan, st, Mark(i, r.mono), r.generation.value, durationS, source);
    case ShutdownIgnored(epoch) => ConsumeKeepsSlots(st, (r.generation.value, epoch));
    case ShutdownAlreadyPending(epoch) => ConsumeKeepsSlots(st, (r.generation.value, epoch));
    case _ =>
  }

  lemma LaunchKeepsObserved(plan: Plan, st: State, mark: Mark, g: nat, durationS: nat, source: Option<Key>)
    requires |st.lives| == plan.Count() && g < plan.Count()
    ensures
      var next := StepLaunch(plan, st, mark, g, durationS, source);
      next.Some? ==> next.value.observed == st.observed && next.value.observedIds == st.observedIds
  {
    hide Available, IsEpoch, Consume;
    if source.Some? {
      ConsumeKeepsSlots(st, source.value);
    }
  }

  ghost predicate ReportedBy(rs: seq<JournalRecord>, g: nat, id: ShutdownId) {
    exists p :: 0 <= p < |rs| && Reports(rs[p], g, id)
  }

  lemma {:induction false} RunObserves(plan: Plan, rs: seq<JournalRecord>, g: nat, stream: StreamKind)
    requires Run(plan, rs).Some?
    ensures Observed(Run(plan, rs).value, (g, stream)) == ReportedStream(rs, g, stream)
    ensures forall id :: (g, id) in Run(plan, rs).value.observedIds <==> ReportedBy(rs, g, id)
    ensures forall p, q, id :: 0 <= p < q < |rs| && Reports(rs[p], g, id) ==> !Reports(rs[q], g, id)
    ensures forall p, id :: 0 <= p < |rs| && Reports(rs[p], g, id) ==> IsRaw(plan, g, id)
  {
    hide Step, Reports, ReportsStream;
    if rs != [] {
      var last := |rs| - 1;
      var front := rs[..last];
      RunObserves(plan, front, g, stream);
      StepObserves(plan, Run(plan, front).value, last, rs[last], g, stream);
      forall id ensures ReportedBy(rs, g, id) <==> ReportedBy(front, g, id) || Reports(rs[last], g, id) {
        if ReportedBy(front, g, id) {
          var p :| 0 <= p < |front| && Reports(front[p], g, id);
          assert Reports(rs[p], g, id);
        }
        if ReportedBy(rs, g, id) && !Reports(rs[last], g, id) {
          var p :| 0 <= p < |rs| && Reports(rs[p], g, id);
          assert Reports(front[p], g, id);
        }
      }
      forall p, q, id | 0 <= p < q < |rs| && Reports(rs[p], g, id) ensures !Reports(rs[q], g, id) {
        assert Reports(front[p], g, id) && ReportedBy(front, g, id);
        if q < last {
          assert front[q] == rs[q];
        }
      }
      forall p, id | 0 <= p < |rs| && Reports(rs[p], g, id)
        ensures IsRaw(plan, g, id)
      {
        if p < last {
          assert Reports(front[p], g, id);
        }
      }
    }
  }

  /**
    The journal reports exactly the raw shutdown identities, each once, and per stream as many as
    the raw files hold.
   */
  lemma {:induction false} ReportsMatchRaw(plan: Plan, rs: seq<JournalRecord>, g: nat, stream: StreamKind)
    requires Accepted(plan, rs) && g < plan.Count()
    ensures forall id :: ReportedBy(rs, g, id) <==> id in plan.generations[g].rawShutdowns
    ensures forall p, q, id :: 0 <= p < |rs| && 0 <= q < |rs| && Reports(rs[p], g, id) && Reports(rs[q], g, id) ==> p == q
    ensures ReportedStream(rs, g, stream) == CountStream(plan.generations[g].rawShutdowns, stream)
  {
    hide Run, Reports, ReportsStream, TimingOk, LifecycleComplete;
    RunObserves(plan, rs, g, stream);
    forall id ensures ReportedBy(rs, g, id) <==> id in plan.generations[g].rawShutdowns {
      if ReportedBy(rs, g, id) {
        var p :| 0 <= p < |rs| && Reports(rs[p], g, id);
        assert IsRaw(plan, g, id);
      }
    }
    forall p, q, id | 0 <= p < |rs| && 0 <= q < |rs| && Reports(rs[p], g, id) && Reports(rs[q], g, id)
      ensures p == q
    {
      assert !(p < q) && !(q < p);
    }
  }
}
