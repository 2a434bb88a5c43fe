/**
  The verdict of the audit on a whole journal set, told from its records: the chain inside each
  segment, the links between segments and the payloads as one journal.
 */
module ArbitrationVerdict {
  import opened Wrappers
  import opened ArbitrationAudit
  import opened ArbitrationRuns
  import opened ArbitrationChain
  import opened ArbitrationHistory

  // ----- one file -----

  /** The record fits an opened file: chained, not after a TERMINAL and opening rightly. */
  ghost predicate Fits(digest: Body -> Digest, st: Audit, es: seq<Envelope>, i: nat)
    requires i < |es|
  {
    && Chained(digest, es[i], i, LastSha(es[..i]))
    && (i > 0 ==> !es[i - 1].body.payload.Terminal?)
    && OpensRightly(Opened(st), es[i].body.payload, i)
  }

  ghost predicate AllFit(digest: Body -> Digest, st: Audit, es: seq<Envelope>) {
    forall i :: 0 <= i < |es| ==> Fits(digest, st, es, i)
  }

  lemma AllFitNext(digest: Body -> Digest, st: Audit, es: seq<Envelope>)
    requires es != []
    ensures AllFit(digest, st, es) <==> AllFit(digest, st, es[..|es| - 1]) && Fits(digest, st, es, |es| - 1)
  {
    hide Chained, OpensRightly;
    var last := |es| - 1;
    var front := es[..last];
    forall i | 0 <= i < last ensures Fits(digest, st, front, i) <==> Fits(digest, st, es, i) {
      assert front[..i] == es[..i];
    }
    if AllFit(digest, st, es) {
      forall i | 0 <= i < last ensures Fits(digest, st, front, i) {
        assert Fits(digest, st, es, i);
      }
    }
    if AllFit(digest, st, front) && Fits(digest, st, es, last) {
      forall i | 0 <= i < |es| ensures Fits(digest, st, es, i) {
        assert i < last ==> Fits(digest, st, front, i);
      }
    }
  }

  /** What an opened file leaves alone and what its last record sets. */
  lemma {:induction false} FileMarks(digest: Body -> Digest, st: Audit, es: seq<Envelope>)
    requires RunFile(digest, st, es).Some?
    ensures
      var st' := RunFile(digest, st, es).value;
      && st'.segments == st.segments
      && st'.terminalSeen == (es != [] && es[|es| - 1].body.payload.Terminal?)
      && st'.symbol == (if es != [] && es[0].body.payload.Started? then es[0].body.payload.symbol else st.symbol)
  {
    hide CoreStep, Chained;
    if es != [] {
      var last := |es| - 1;
      FileMarks(digest, st, es[..last]);
      assert last > 0 ==> es[..last][0] == es[0];
    }
  }

  lemma StepFits(digest: Body -> Digest, st: Audit, es: seq<Envelope>, before: Audit)
    requires es != [] && RunFile(digest, st, es[..|es| - 1]) == Some(before)
    ensures
      var last := |es| - 1;
      Step(digest, before, es[last], last, LastSha(es[..last])).Some? <==>
      Fits(digest, st, es, last) && CoreStep(before.core, es[last].body.payload).Some?
  {
    hide CoreStep, Chained, RunFile;
    FileMarks(digest, st, es[..|es| - 1]);
    if |es| == 1 {
      EmptyFile(digest, st, es[..0]);
    }
  }

  lemma EmptyFile(digest: Body -> Digest, st: Audit, es: seq<Envelope>)
    requires es == []
    ensures RunFile(digest, st, es) == Some(Opened(st))
  {
  }

  lemma {:induction false} FileExactly(digest: Body -> Digest, st: Audit, ps: seq<Payload>, es: seq<Envelope>)
    requires CoreRun(ps) == Some(st.core) && (st.segments == 0 ==> ps == [])
    ensures RunFile(digest, st, es).Some? <==> AllFit(digest, st, es) && CoreRun(ps + Payloads(es)).Some?
  {
    hide CoreStep, Step, Fits, AllFit;
    if es == [] {
      assert ps + Payloads(es) == ps;
      NothingToFit(digest, st, es);
    } else {
      var last := |es| - 1;
      var front := es[..last];
      FileExactly(digest, st, ps, front);
      AllFitNext(digest, st, es);
      var all := ps + Payloads(es);
      assert all[..|all| - 1] == ps + Payloads(front) && all[|all| - 1] == es[last].body.payload;
      if RunFile(digest, st, front).Some? {
        var before := RunFile(digest, st, front).value;
        StepFits(digest, st, es, before);
        FileIsOneRun(digest, st, ps, front);
        StartedFits(digest, st, ps, es);
      }
    }
  }

  lemma NothingToFit(digest: Body -> Digest, st: Audit, es: seq<Envelope>)
    requires es == []
    ensures AllFit(digest, st, es)
  {
  }

  lemma StartedFits(digest: Body -> Digest, st: Audit, ps: seq<Payload>, es: seq<Envelope>)
    requires es != [] && (st.segments == 0 ==> ps == [])
    ensures
      var last := |es| - 1;
      Fits(digest, st, es, last) && es[last].body.payload.Started? ==> |ps| + last == 0
  {
    hide Chained;
  }

  // ----- the whole set -----

  /**
    The record at `i` of segment `s`: its index, its link and its digest, and its place when it
    opens or closes a segment.
   */
  ghost predicate InPlace(digest: Body -> Digest, segments: seq<Segment>, s: nat, i: nat)
    requires s < |segments| && i < |segments[s].envelopes|
  {
    var es := segments[s].envelopes;
    var body := es[i].body;
    && body.recordIndex == i && body.previous == (if i == 0 then ZERO_DIGEST else es[i - 1].sha)
    && es[i].sha == digest(body)
    && (body.payload.Terminal? ==> i == |es| - 1)
    && (body.payload.Started? ==> s == 0 && i == 0)
    && (body.payload.Resumed? ==> s > 0 && i == 0 && Resumes(segments, s, body.payload))
  }

  /** RESUMED names the symbol of the set, and the last digest and torn tail of the segment before. */
  ghost predicate Resumes(segments: seq<Segment>, s: nat, p: Payload)
    requires 0 < s < |segments| && p.Resumed?
  {
    && p.mode.Some? && p.tailBytes == segments[s - 1].tail
    && segments[s - 1].envelopes != []
    && p.chain == Some(segments[s - 1].envelopes[|segments[s - 1].envelopes| - 1].sha)
    && segments[0].envelopes != [] && segments[0].envelopes[0].body.payload.Started?
    && p.symbol == segments[0].envelopes[0].body.payload.symbol
  }

  ghost predicate SegmentInPlace(digest: Body -> Digest, segments: seq<Segment>, s: nat)
    requires s < |segments|
  {
    segments[s].envelopes != [] && forall i :: 0 <= i < |segments[s].envelopes| ==> InPlace(digest, segments, s, i)
  }

  ghost predicate AllInPlace(digest: Body -> Digest, segments: seq<Segment>) {
    forall s :: 0 <= s < |segments| ==> SegmentInPlace(digest, segments, s)
  }

  lemma AllInPlaceNext(digest: Body -> Digest, segments: seq<Segment>)
    requires segments != []
    ensures
      var last := |segments| - 1;
      AllInPlace(digest, segments) <==> AllInPlace(digest, segments[..last]) && SegmentInPlace(digest, segments, last)
  {
    hide SegmentInPlace;
    var last := |segments| - 1;
    var front := segments[..last];
    forall s | 0 <= s < last ensures SegmentInPlace(digest, front, s) <==> SegmentInPlace(digest, segments, s) {
      SamePlace(digest, segments, last, s);
    }
    if AllInPlace(digest, segments) {
      forall s | 0 <= s < last ensures SegmentInPlace(digest, front, s) {
        assert SegmentInPlace(digest, segments, s);
      }
    }
    if AllInPlace(digest, front) && SegmentInPlace(digest, segments, last) {
      forall s | 0 <= s < |segments| ensures SegmentInPlace(digest, segments, s) {
        assert s < last ==> SegmentInPlace(digest, front, s);
      }
    }
  }

  lemma SamePlace(digest: Body -> Digest, segments: seq<Segment>, n: nat, s: nat)
    requires s < n <= |segments|
    ensures SegmentInPlace(digest, segments[..n], s) <==> SegmentInPlace(digest, segments, s)
  {
    var front := segments[..n];
    assert front[s] == segments[s] && front[0] == segments[0] && (s > 0 ==> front[s - 1] == segments[s - 1]);
    forall i | 0 <= i < |segments[s].envelopes| ensures InPlace(digest, front, s, i) <==> InPlace(digest, segments, s, i) {
    }
    if SegmentInPlace(digest, front, s) {
      forall i | 0 <= i < |segments[s].envelopes| ensures InPlace(digest, segments, s, i) {
        assert InPlace(digest, front, s, i);
      }
    }
  }

  /** The symbol of the set: that of a leading STARTED. */
  lemma {:induction false} SetSymbol(digest: Body -> Digest, segments: seq<Segment>)
    requires RunSet(digest, segments).Some? && segments != []
    ensures segments[0].envelopes != []
    ensures
      var first := segments[0].envelopes[0].body.payload;
      RunSet(digest, segments).value.symbol == if first.Started? then first.symbol else None
  {
    hide RunFile, CoreRun;
    var last := |segments| - 1;
    var front := segments[..last];
    var st := RunSet(digest, front).value;
    FileMarks(digest, st, segments[last].envelopes);
    if last > 0 {
      SetSymbol(digest, front);
      OpeningChecked(digest, st, segments[last].envelopes);
      SetIsOneRun(digest, front);
    }
  }

  /** In the state that the earlier segments left, fitting the file is being in place. */
  lemma FitsInPlace(digest: Body -> Digest, segments: seq<Segment>, st: Audit)
    requires segments != [] && RunSet(digest, segments[..|segments| - 1]) == Some(st)
    requires segments[|segments| - 1].envelopes != [] && CoreRun(Flatten(segments)).Some?
    ensures AllFit(digest, st, segments[|segments| - 1].envelopes) <==> SegmentInPlace(digest, segments, |segments| - 1)
  {
    hide RunSet, CoreRun, Flatten, RunFile, Fits, InPlace;
    var s := |segments| - 1;
    var front, es := segments[..s], segments[s].envelopes;
    SetFacts(digest, segments, st);
    forall i | 0 <= i < |es|
      ensures Fits(digest, st, es, i) && LastIfTerminal(es, i) <==>
              InPlace(digest, segments, s, i) && FirstAfterTerminal(es, i)
    {
      if s > 0 && es[i].body.payload.Resumed? {
        ResumedAfterStart(segments, i);
      }
      OneFits(digest, segments, st, i);
    }
    TerminalsAreLast(es);
    if AllFit(digest, st, es) {
      assert forall i :: 0 <= i < |es| ==> FirstAfterTerminal(es, i) by {
        forall i | 0 <= i < |es| ensures FirstAfterTerminal(es, i) {
          assert Fits(digest, st, es, i);
          FitsFollows(digest, st, es, i);
        }
      }
      forall i | 0 <= i < |es| ensures InPlace(digest, segments, s, i) {
        assert Fits(digest, st, es, i) && LastIfTerminal(es, i);
      }
    }
    if SegmentInPlace(digest, segments, s) {
      assert forall i :: 0 <= i < |es| ==> LastIfTerminal(es, i) by {
        forall i | 0 <= i < |es| ensures LastIfTerminal(es, i) {
          assert InPlace(digest, segments, s, i);
          PlaceIsLast(digest, segments, s, i);
        }
      }
      forall i | 0 <= i < |es| ensures Fits(digest, st, es, i) {
        assert InPlace(digest, segments, s, i) && FirstAfterTerminal(es, i);
      }
    }
  }

  predicate LastIfTerminal(es: seq<Envelope>, i: nat)
    requires i < |es|
  {
    es[i].body.payload.Terminal? ==> i == |es| - 1
  }

  predicate FirstAfterTerminal(es: seq<Envelope>, i: nat)
    requires i < |es|
  {
    i > 0 ==> !es[i - 1].body.payload.Terminal?
  }

  lemma TerminalsAreLast(es: seq<Envelope>)
    ensures (forall i :: 0 <= i < |es| ==> LastIfTerminal(es, i)) <==> (forall i :: 0 <= i < |es| ==> FirstAfterTerminal(es, i))
  {
    if forall i :: 0 <= i < |es| ==> FirstAfterTerminal(es, i) {
      forall i | 0 <= i < |es| ensures LastIfTerminal(es, i) {
        assert i < |es| - 1 ==> FirstAfterTerminal(es, i + 1);
      }
    }
    if forall i :: 0 <= i < |es| ==> LastIfTerminal(es, i) {
      forall i | 0 <= i < |es| ensures FirstAfterTerminal(es, i) {
        assert i > 0 ==> LastIfTerminal(es, i - 1);
      }
    }
  }

  lemma FitsFollows(digest: Body -> Digest, st: Audit, es: seq<Envelope>, i: nat)
    requires i < |es| && Fits(digest, st, es, i)
    ensures FirstAfterTerminal(es, i)
  {
    hide Chained, OpensRightly;
  }

  lemma PlaceIsLast(digest: Body -> Digest, segments: seq<Segment>, s: nat, i: nat)
    requires s < |segments| && i < |segments[s].envelopes| && InPlace(digest, segments, s, i)
    ensures LastIfTerminal(segments[s].envelopes, i)
  {
    hide Resumes;
  }

  /** What the state that the earlier segments left says of them. */
  ghost predicate Left(segments: seq<Segment>, st: Audit)
    requires segments != []
  {
    var s := |segments| - 1;
    && st.segments == s
    && (s > 0 ==>
          && segments[0].envelopes != [] && segments[s - 1].envelopes != []
          && st.lastRecordSha == LastSha(segments[s - 1].envelopes) && st.lastSegmentTail == segments[s - 1].tail
          && st.symbol == (var first := FirstOf(segments[0]); if first.Started? then first.symbol else None))
  }

  lemma SetFacts(digest: Body -> Digest, segments: seq<Segment>, st: Audit)
    requires segments != [] && RunSet(digest, segments[..|segments| - 1]) == Some(st)
    ensures Left(segments, st)
  {
    hide RunSet, CoreRun;
    var front := segments[..|segments| - 1];
    SetIsOneRun(digest, front);
    if front != [] {
      SetMarks(digest, front);
      SetSymbol(digest, front);
    }
  }

  /** RESUMED follows a STARTED that opened the set. */
  lemma ResumedAfterStart(segments: seq<Segment>, i: nat)
    requires |segments| > 1 && segments[0].envelopes != [] && CoreRun(Flatten(segments)).Some?
    requires i < |segments[|segments| - 1].envelopes| && segments[|segments| - 1].envelopes[i].body.payload.Resumed?
    ensures FirstOf(segments[0]).Started?
  {
    hide CoreRun, Payloads;
    var s := |segments| - 1;
    var ps, n := Flatten(segments), |Flatten(segments[..s])| + i;
    PayloadAt(segments[s].envelopes, i);
    assert ps[n].Resumed?;
    FirstPayload(segments);
    RunsExactly(ps);
    assert MayFollow(ps[..n], ps[n]);
    assert ps[..n][0] == ps[0];
  }

  lemma OneFits(digest: Body -> Digest, segments: seq<Segment>, st: Audit, i: nat)
    requires segments != [] && Left(segments, st) && i < |segments[|segments| - 1].envelopes|
    requires
      var p := segments[|segments| - 1].envelopes[i].body.payload;
      |segments| > 1 && p.Resumed? ==> FirstOf(segments[0]).Started?
    ensures
      var s := |segments| - 1;
      var es := segments[s].envelopes;
      Fits(digest, st, es, i) && LastIfTerminal(es, i) <==> InPlace(digest, segments, s, i) && FirstAfterTerminal(es, i)
  {
    match segments[|segments| - 1].envelopes[i].body.payload
    case Started(_, _, _) =>
    case Resumed(_, _, _, _, _, _) =>
    case _ =>
  }

  /** A set runs exactly when every record is in place and its payloads run as one journal. */
  lemma {:induction false} SetRunsExactly(digest: Body -> Digest, segments: seq<Segment>)
    ensures RunSet(digest, segments).Some? <==> AllInPlace(digest, segments) && CoreRun(Flatten(segments)).Some?
  {
    hide RunFile, AllInPlace, SegmentInPlace, AllFit, CoreRun, Flatten;
    if segments == [] {
      EmptySet(digest);
    } else {
      var last := |segments| - 1;
      var front, es := segments[..last], segments[last].envelopes;
      SetRunsExactly(digest, front);
      AllInPlaceNext(digest, segments);
      FlattenNext(segments);
      if CoreRun(Flatten(segments)).Some? {
        ArbitrationRuns.PrefixRuns(Flatten(segments), |Flatten(front)|);
      }
      if es != [] && RunSet(digest, front).Some? {
        var st := RunSet(digest, front).value;
        SetIsOneRun(digest, front);
        EmptyFlatten(front);
        FileExactly(digest, st, Flatten(front), es);
        if CoreRun(Flatten(segments)).Some? {
          FitsInPlace(digest, segments, st);
        }
      } else if es == [] {
        EmptyIsOut(digest, segments);
      }
    }
  }

  lemma EmptySet(digest: Body -> Digest)
    ensures AllInPlace(digest, []) && CoreRun(Flatten([])).Some?
  {
  }

  lemma EmptyFlatten(segments: seq<Segment>)
    ensures segments == [] ==> Flatten(segments) == []
  {
  }

  lemma EmptyIsOut(digest: Body -> Digest, segments: seq<Segment>)
    requires segments != [] && segments[|segments| - 1].envelopes == []
    ensures !SegmentInPlace(digest, segments, |segments| - 1)
  {
  }

  lemma FlattenNext(segments: seq<Segment>)
    requires segments != []
    ensures
      var front := Flatten(segments[..|segments| - 1]);
      && Flatten(segments) == front + Payloads(segments[|segments| - 1].envelopes)
      && Flatten(segments)[..|front|] == front
  {
  }

  /**
    The audit accepts exactly the sets that open with STARTED, whose records are in place, whose
    payloads may each follow the ones before, and which are closed unless it is incremental.
   */
  lemma {:induction false} VerdictIsExact(digest: Body -> Digest, segments: seq<Segment>, incremental: bool)
    ensures
      var ps := Flatten(segments);
      Accepted(digest, segments, incremental) <==>
      && segments != [] && AllInPlace(digest, segments)
      && (forall i :: 0 <= i < |ps| ==> MayFollow(ps[..i], ps[i]))
      && HasStarted(ps)
      && (incremental || (segments[|segments| - 1].tail == 0 && ps[|ps| - 1].Terminal?))
  {
    hide RunFile, AllInPlace, CoreRun, Flatten, MayFollow;
    var ps := Flatten(segments);
    SetRunsExactly(digest, segments);
    RunsExactly(ps);
    if segments != [] && RunSet(digest, segments).Some? {
      SetIsOneRun(digest, segments);
      RunOpens(ps);
      LastPayload(digest, segments);
    }
  }

  lemma LastPayload(digest: Body -> Digest, segments: seq<Segment>)
    requires segments != [] && RunSet(digest, segments).Some?
    ensures Flatten(segments) != []
    ensures RunSet(digest, segments).value.terminalSeen == Flatten(segments)[|Flatten(segments)| - 1].Terminal?
  {
    hide RunFile, Payloads;
    var last := |segments| - 1;
    var es := segments[last].envelopes;
    FlattenNext(segments);
    FileMarks(digest, RunSet(digest, segments[..last]).value, es);
    PayloadAt(es, |es| - 1);
  }

  /** Every rebootstrap of an accepted set is complete and follows a GAP with no frame in between. */
  lemma {:induction false} RebootFollowsGap(digest: Body -> Digest, segments: seq<Segment>, incremental: bool, i: nat)
    returns (k: nat)
    requires Accepted(digest, segments, incremental)
    requires i < |Flatten(segments)| && Flatten(segments)[i].DepthRebootstrap?
    ensures Flatten(segments)[i].complete
    ensures k < i && Flatten(segments)[k].Gap?
    ensures forall j :: k < j < i ==> !Flatten(segments)[j].DepthObservation?
  {
    hide AllInPlace, Flatten, Accepted, LastDepth;
    var ps := Flatten(segments);
    VerdictIsExact(digest, segments, incremental);
    assert MayFollow(ps[..i], ps[i]);
    k :| LastDepth(ps[..i]) < k < i && ps[..i][k].Gap?;
    forall j | k < j < i ensures !ps[j].DepthObservation? {
      assert !ps[..i][j].DepthObservation?;
    }
  }
}
