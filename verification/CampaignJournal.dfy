/**
  The campaign journal as a file: one hash chain of records with a clock that never goes back, from
  which the automaton gets its records.
 */
module CampaignJournal {
  import opened Wrappers
  import opened Campaign
  import opened CampaignRuns

  type Digest = string

  const ZERO_DIGEST: Digest := "0000000000000000000000000000000000000000000000000000000000000000"

  datatype Body = Body(recordIndex: int, previous: Digest, record: JournalRecord)

  datatype Envelope = Envelope(body: Body, sha: Digest)

  function Records(es: seq<Envelope>): (rs: seq<JournalRecord>)
    ensures |rs| == |es| && forall i :: 0 <= i < |es| ==> rs[i] == es[i].body.record
  {
    seq(|es|, i requires 0 <= i < |es| => es[i].body.record)
  }

  function LastSha(es: seq<Envelope>): Digest {
    if es == [] then ZERO_DIGEST else es[|es| - 1].sha
  }

  /** The checks of one line against the ones before it. */
  predicate LineOk(digest: Body -> Digest, es: seq<Envelope>, generations: nat, i: nat)
    requires i < |es|
  {
    var e, r := es[i], es[i].body.record;
    && e.body.recordIndex == i && e.body.previous == LastSha(es[..i]) && e.sha == digest(e.body)
    && (i > 0 ==> es[i - 1].body.record.mono <= r.mono)
    && (r.generation.Some? ==> r.generation.value < generations)
    && r.channel != UnknownChannel && r.channel != ChildStderr
  }

  ghost predicate Scanned(digest: Body -> Digest, es: seq<Envelope>, generations: nat) {
    es != [] && forall i :: 0 <= i < |es| ==> LineOk(digest, es, generations, i)
  }

  /** `_scan_journal`: the records and the last digest, or nothing at the first bad line. */
  method ScanJournal(digest: Body -> Digest, es: seq<Envelope>, generations: nat)
    returns (r: Option<(seq<JournalRecord>, Digest)>)
    ensures r.Some? <==> Scanned(digest, es, generations)
    ensures r.Some? ==> r.value == (Records(es), LastSha(es))
  {
    var records: seq<JournalRecord>, previous := [], ZERO_DIGEST;
    var lastMono: Option<nat> := None;
    for i := 0 to |es|
      invariant forall j :: 0 <= j < i ==> LineOk(digest, es, generations, j)
      invariant records == Records(es[..i]) && previous == LastSha(es[..i])
      invariant lastMono == if i == 0 then None else Some(es[i - 1].body.record.mono)
    {
      assert es[..i + 1][..i] == es[..i];
      var e := es[i];
      var record := e.body.record;
      if record.generation.Some? && record.generation.value >= generations {
        assert !LineOk(digest, es, generations, i);
        return None;
      }
      if e.body.recordIndex != i || e.body.previous != previous || e.sha != digest(e.body)
         || (lastMono.Some? && record.mono < lastMono.value) {
        assert !LineOk(digest, es, generations, i);
        return None;
      }
      if record.channel == UnknownChannel || record.channel == ChildStderr {
        assert !LineOk(digest, es, generations, i);
        return None;
      }
      records := records + [record];
      previous := e.sha;
      lastMono := Some(record.mono);
    }
    assert es[..|es|] == es;
    if es == [] {
      return None;
    }
    return Some((records, previous));
  }

  /** The clock of a scanned journal never goes back. */
  lemma {:induction false} ClockIsMonotone(digest: Body -> Digest, es: seq<Envelope>, generations: nat, i: nat, j: nat)
    requires Scanned(digest, es, generations) && i <= j < |es|
    ensures Records(es)[i].mono <= Records(es)[j].mono
    decreases j
  {
    if i < j {
      ClockIsMonotone(digest, es, generations, i, j - 1);
      assert LineOk(digest, es, generations, j);
    }
  }

  /** The line is numbered and sealed, links to the line before and is of a known channel and generation. */
  ghost predicate InPlace(digest: Body -> Digest, es: seq<Envelope>, generations: nat, i: nat)
    requires i < |es|
  {
    && es[i].body.recordIndex == i && es[i].sha == digest(es[i].body)
    && es[i].body.previous == (if i == 0 then ZERO_DIGEST else es[i - 1].sha)
    && es[i].body.record.channel in {CampaignChannel, ChildStdout, Supervisor}
    && (es[i].body.record.generation.None? || es[i].body.record.generation.value < generations)
  }

  /** A journal is scanned exactly when its lines are in place and no clock is before an earlier one. */
  lemma {:induction false} ScannedMeans(digest: Body -> Digest, es: seq<Envelope>, generations: nat)
    ensures
      Scanned(digest, es, generations) <==>
      && es != [] && (forall i :: 0 <= i < |es| ==> InPlace(digest, es, generations, i))
      && forall i, j :: 0 <= i < j < |es| ==> es[i].body.record.mono <= es[j].body.record.mono
  {
    if Scanned(digest, es, generations) {
      forall i | 0 <= i < |es| ensures InPlace(digest, es, generations, i) {
        assert LineOk(digest, es, generations, i);
      }
      forall i, j | 0 <= i < j < |es| ensures es[i].body.record.mono <= es[j].body.record.mono {
        ClockIsMonotone(digest, es, generations, i, j);
      }
    }
    if (forall i :: 0 <= i < |es| ==> InPlace(digest, es, generations, i))
       && forall i, j :: 0 <= i < j < |es| ==> es[i].body.record.mono <= es[j].body.record.mono {
      forall i | 0 <= i < |es| ensures LineOk(digest, es, generations, i) {
        assert InPlace(digest, es, generations, i);
      }
    }
  }

  ghost predicate CollisionFree(digest: Body -> Digest, es: seq<Envelope>, fs: seq<Envelope>) {
    forall i, j :: 0 <= i < |es| && 0 <= j < |fs| && digest(es[i].body) == digest(fs[j].body) ==> es[i].body == fs[j].body
  }

  /** The last digest determines the whole journal. */
  lemma {:induction false} LastDigestDeterminesJournal(digest: Body -> Digest, es: seq<Envelope>, fs: seq<Envelope>, generations: nat)
    requires Scanned(digest, es, generations) && Scanned(digest, fs, generations) && CollisionFree(digest, es, fs)
    requires LastSha(es) == LastSha(fs)
    ensures es == fs
  {
    hide Scanned, CollisionFree;
    var m := |es| - 1;
    LastLines(digest, es, fs, generations);
    if m > 0 {
      ScannedPrefix(digest, es, generations, m);
      ScannedPrefix(digest, fs, generations, m);
      assert CollisionFree(digest, es[..m], fs[..m]) by {
        PrefixesCollisionFree(digest, es, fs, m);
      }
      LastDigestDeterminesJournal(digest, es[..m], fs[..m], generations);
    }
    assert es == es[..m] + [es[m]] && fs == fs[..m] + [fs[m]];
  }

  lemma PrefixesCollisionFree(digest: Body -> Digest, es: seq<Envelope>, fs: seq<Envelope>, m: nat)
    requires CollisionFree(digest, es, fs) && m <= |es| && m <= |fs|
    ensures CollisionFree(digest, es[..m], fs[..m])
  {
  }

  lemma ScannedPrefix(digest: Body -> Digest, es: seq<Envelope>, generations: nat, m: nat)
    requires Scanned(digest, es, generations) && 0 < m <= |es|
    ensures Scanned(digest, es[..m], generations)
  {
    forall i | 0 <= i < m ensures LineOk(digest, es[..m], generations, i) {
      assert LineOk(digest, es, generations, i);
      assert es[..m][..i] == es[..i];
    }
  }

  lemma LastLines(digest: Body -> Digest, es: seq<Envelope>, fs: seq<Envelope>, generations: nat)
    requires Scanned(digest, es, generations) && Scanned(digest, fs, generations) && CollisionFree(digest, es, fs)
    requires LastSha(es) == LastSha(fs)
    ensures es != [] && |es| == |fs| && es[|es| - 1] == fs[|fs| - 1]
    ensures LastSha(es[..|es| - 1]) == LastSha(fs[..|fs| - 1])
  {
    assert LineOk(digest, es, generations, |es| - 1) && LineOk(digest, fs, generations, |fs| - 1);
  }

  /**
    In a scanned and accepted journal the clock readings of the lifecycle are in the order of its
    records: launches, starts and terminals follow the index order in time as well.
   */
  lemma {:induction false} LifecyclesAreOrderedInTime(digest: Body -> Digest, es: seq<Envelope>, plan: Plan, g: nat, h: nat)
    requires Scanned(digest, es, plan.Count()) && Accepted(plan, Records(es)) && g < h < plan.Count()
    ensures
      var p, s := Run(plan, Records(es)).value.lives[g], Run(plan, Records(es)).value.lives[h];
      && p.launch.value.mono <= s.launch.value.mono
      && p.started.value.mono <= s.started.value.mono
      && p.terminal.value.mono <= s.terminal.value.mono
  {
    hide Scanned, Run, IdentitiesOk, ShutdownsSettled, TimingOk, Terminals;
    var rs := Records(es);
    LifecyclesAreOrdered(plan, rs, g, h);
    MarksReadTheClock(plan, rs, g);
    MarksReadTheClock(plan, rs, h);
    var p, s := Run(plan, rs).value.lives[g], Run(plan, rs).value.lives[h];
    ClockIsMonotone(digest, es, plan.Count(), p.launch.value.record, s.launch.value.record);
    ClockIsMonotone(digest, es, plan.Count(), p.started.value.record, s.started.value.record);
    ClockIsMonotone(digest, es, plan.Count(), p.terminal.value.record, s.terminal.value.record);
  }

  predicate ReadsClock(mark: Option<Mark>, rs: seq<JournalRecord>) {
    mark.Some? ==> mark.value.record < |rs| && mark.value.mono == rs[mark.value.record].mono
  }

  predicate LifeReadsClock(life: Lifecycle, rs: seq<JournalRecord>) {
    ReadsClock(life.launch, rs) && ReadsClock(life.started, rs) && ReadsClock(life.terminal, rs) && ReadsClock(life.exited, rs)
  }

  /** Every mark carries the clock of the record that set it. */
  lemma {:induction false} MarksReadTheClock(plan: Plan, rs: seq<JournalRecord>, g: nat)
    requires Run(plan, rs).Some? && g < plan.Count()
    ensures LifeReadsClock(Run(plan, rs).value.lives[g], rs)
  {
    hide Step;
    if rs != [] {
      var last := |rs| - 1;
      MarksReadTheClock(plan, rs[..last], g);
      StepLives(plan, Run(plan, rs[..last]).value, last, rs[last]);
    }
  }
}
