/**
  Which segments of an accepted journal set are linked by digests, and what the last digest of the
  set says about the whole of it.
 */
module ArbitrationChain {
  import opened Wrappers
  import opened ArbitrationAudit
  import opened ArbitrationRuns
  import opened ArbitrationWriter

  function FirstOf(segment: Segment): Payload
    requires segment.envelopes != []
  {
    segment.envelopes[0].body.payload
  }

  /** The segment names the last digest and the torn tail of the one before it. */
  predicate Links(before: Segment, segment: Segment)
    requires segment.envelopes != []
  {
    var p := FirstOf(segment);
    p.Resumed? && p.chain == Some(LastSha(before.envelopes)) && p.tailBytes == before.tail
  }

  // ----- one file -----

  lemma {:induction false} FileIsChained(digest: Body -> Digest, st: Audit, es: seq<Envelope>, i: nat)
    requires RunFile(digest, st, es).Some? && i < |es|
    ensures Chained(digest, es[i], i, LastSha(es[..i]))
  {
    hide CoreStep, OpensRightly;
    var last := |es| - 1;
    if i < last {
      FileIsChained(digest, st, es[..last], i);
      assert es[..last][..i] == es[..i];
    }
  }

  lemma {:induction false} OpeningChecked(digest: Body -> Digest, st: Audit, es: seq<Envelope>)
    requires es != [] && RunFile(digest, st, es).Some?
    ensures OpensRightly(Opened(st), es[0].body.payload, 0)
  {
    hide CoreStep, OpensRightly, Chained;
    var last := |es| - 1;
    if last > 0 {
      OpeningChecked(digest, st, es[..last]);
    } else {
      assert es[..0] == [];
    }
  }

  /** Every record of the file links to the one before it. */
  ghost predicate ChainedFile(digest: Body -> Digest, es: seq<Envelope>) {
    forall i :: 0 <= i < |es| ==> ChainedAt(digest, es, i)
  }

  ghost predicate ChainedAt(digest: Body -> Digest, es: seq<Envelope>, i: nat) {
    i < |es| && Chained(digest, es[i], i, LastSha(es[..i]))
  }

  /** Different records of the two files have different digests. */
  ghost predicate FilesCollisionFree(digest: Body -> Digest, es: seq<Envelope>, fs: seq<Envelope>) {
    forall i, j :: 0 <= i < |es| && 0 <= j < |fs| && digest(es[i].body) == digest(fs[j].body) ==> es[i].body == fs[j].body
  }

  lemma ChainedPrefix(digest: Body -> Digest, es: seq<Envelope>, m: nat)
    requires ChainedFile(digest, es) && m <= |es|
    ensures ChainedFile(digest, es[..m])
  {
    hide Chained;
    forall i | 0 <= i < m ensures ChainedAt(digest, es[..m], i) {
      assert ChainedAt(digest, es, i);
      assert es[..m][..i] == es[..i];
    }
  }

  lemma LastBodies(digest: Body -> Digest, es: seq<Envelope>, fs: seq<Envelope>)
    requires es != [] && fs != [] && LastSha(es) == LastSha(fs)
    requires ChainedFile(digest, es) && ChainedFile(digest, fs) && FilesCollisionFree(digest, es, fs)
    ensures |es| == |fs| && es[|es| - 1] == fs[|fs| - 1]
    ensures LastSha(es[..|es| - 1]) == LastSha(fs[..|fs| - 1])
  {
    assert ChainedAt(digest, es, |es| - 1) && ChainedAt(digest, fs, |fs| - 1);
  }

  /** The last digest of a file determines its records. */
  lemma {:induction false} LastShaDeterminesFile(digest: Body -> Digest, es: seq<Envelope>, fs: seq<Envelope>)
    requires es != [] && fs != [] && LastSha(es) == LastSha(fs)
    requires ChainedFile(digest, es) && ChainedFile(digest, fs) && FilesCollisionFree(digest, es, fs)
    ensures es == fs
  {
    hide ChainedFile;
    var m := |es| - 1;
    LastBodies(digest, es, fs);
    if m > 0 {
      ChainedPrefix(digest, es, m);
      ChainedPrefix(digest, fs, m);
      LastShaDeterminesFile(digest, es[..m], fs[..m]);
    }
    assert es == es[..m] + [es[m]] && fs == fs[..m] + [fs[m]];
  }

  // ----- whole sets -----

  lemma {:induction false} RunFileMarks(digest: Body -> Digest, st: Audit, es: seq<Envelope>)
    requires es != [] && RunFile(digest, st, es).Some?
    ensures RunFile(digest, st, es).value.lastRecordSha == LastSha(es)
  {
    hide CoreStep, OpensRightly, Chained;
  }

  /** What the state after a set remembers of its last segment. */
  lemma SetMarks(digest: Body -> Digest, segments: seq<Segment>)
    requires segments != [] && RunSet(digest, segments).Some?
    ensures
      var st, last := RunSet(digest, segments).value, segments[|segments| - 1];
      && last.envelopes != []
      && st.lastRecordSha == LastSha(last.envelopes) && st.lastSegmentTail == last.tail
      && st.segments == |segments|
  {
    hide RunFile;
    SetIsOneRun(digest, segments);
    var last := |segments| - 1;
    RunFileMarks(digest, RunSet(digest, segments[..last]).value, segments[last].envelopes);
  }

  lemma {:induction false} SetPrefixRuns(digest: Body -> Digest, segments: seq<Segment>, i: nat)
    requires i <= |segments| && RunSet(digest, segments).Some?
    ensures RunSet(digest, segments[..i]).Some?
  {
    hide RunFile;
    if RunSet(digest, segments[..i]).None? {
      SetStops(digest, segments, i);
    }
  }

  /** A segment opens in the state that the segments before it left. */
  lemma OpensAfter(digest: Body -> Digest, segments: seq<Segment>, i: nat)
    requires RunSet(digest, segments).Some? && i < |segments|
    ensures segments[i].envelopes != [] && RunSet(digest, segments[..i]).Some?
    ensures RunFile(digest, RunSet(digest, segments[..i]).value, segments[i].envelopes).Some?
  {
    hide RunFile;
    SetPrefixRuns(digest, segments, i + 1);
    assert segments[..i + 1][..i] == segments[..i];
  }

  /** A segment after the first is linked to the one before it exactly when RESUMED opens it. */
  lemma {:induction false} LinkedExactly(digest: Body -> Digest, segments: seq<Segment>, i: nat)
    requires RunSet(digest, segments).Some? && 0 < i < |segments|
    ensures segments[i].envelopes != []
    ensures Links(segments[i - 1], segments[i]) <==> FirstOf(segments[i]).Resumed?
  {
    hide RunFile, RunSet;
    OpensAfter(digest, segments, i);
    OpeningChecked(digest, RunSet(digest, segments[..i]).value, segments[i].envelopes);
    SetMarks(digest, segments[..i]);
  }

  /** STARTED is the first record of every journal that counts as started, and only there. */
  lemma {:induction false} StartedOpens(ps: seq<Payload>)
    requires CoreRun(ps).Some?
    ensures CoreRun(ps).value.started <==> ps != [] && ps[0].Started?
  {
    hide TradeStep, CorrectionStep, DepthStep, GapStep;
    if ps != [] {
      var last := |ps| - 1;
      StartedOpens(ps[..last]);
      StartedStep(CoreRun(ps[..last]).value, ps[last]);
    }
  }

  lemma StartedStep(c: Core, p: Payload)
    requires CoreStep(c, p).Some?
    ensures CoreStep(c, p).value.started <==> c.started || p.Started?
  {
    match p
    case TradeObservation(_, _, _) =>
    case TradeCorrection(_, _, _, _) =>
    case DepthObservation(_, _, _, _, _) =>
    case _ =>
  }

  lemma {:induction false} FirstPayload(segments: seq<Segment>)
    requires segments != [] && segments[0].envelopes != []
    ensures Flatten(segments) != [] && Flatten(segments)[0] == FirstOf(segments[0])
  {
    if |segments| > 1 {
      FirstPayload(segments[..|segments| - 1]);
    } else {
      assert segments[..0] == [] && Flatten(segments) == Payloads(segments[0].envelopes);
      FirstOfPayloads(segments[0].envelopes);
    }
  }

  lemma {:induction false} FirstOfPayloads(es: seq<Envelope>)
    requires es != []
    ensures Payloads(es)[0] == es[0].body.payload
  {
    if |es| > 1 {
      FirstOfPayloads(es[..|es| - 1]);
    }
  }

  /** An accepted set opens with STARTED. */
  lemma {:induction false} AcceptedOpens(digest: Body -> Digest, segments: seq<Segment>, incremental: bool)
    requires Accepted(digest, segments, incremental)
    ensures Starts(segments)
  {
    hide RunSet, CoreRun, Flatten;
    SetIsOneRun(digest, segments);
    StartedOpens(Flatten(segments));
    OpensAfter(digest, segments, 0);
    FirstPayload(segments);
  }

  predicate ResumesAt(segments: seq<Segment>, i: nat) {
    i < |segments| && segments[i].envelopes != [] && FirstOf(segments[i]).Resumed?
  }

  predicate Starts(segments: seq<Segment>) {
    segments != [] && segments[0].envelopes != [] && FirstOf(segments[0]).Started?
  }

  /** RESUMED opens every segment after the first. */
  ghost predicate LaterResume(segments: seq<Segment>) {
    forall i :: 0 < i < |segments| ==> ResumesAt(segments, i)
  }

  lemma LinkedPrefix(segments: seq<Segment>, m: nat)
    requires LaterResume(segments) && Starts(segments) && 0 < m <= |segments|
    ensures LaterResume(segments[..m]) && Starts(segments[..m])
  {
    forall i | 0 < i < m ensures ResumesAt(segments[..m], i) {
      assert ResumesAt(segments, i);
    }
  }

  /** Different records of the two sets have different digests. */
  ghost predicate CollisionFree(digest: Body -> Digest, a: seq<Segment>, b: seq<Segment>) {
    forall i, k :: 0 <= i < |a| && 0 <= k < |b| ==> FilesCollisionFree(digest, a[i].envelopes, b[k].envelopes)
  }

  lemma SegmentsWithOneSha(digest: Body -> Digest, a: seq<Segment>, i: nat, b: seq<Segment>, k: nat)
    requires RunSet(digest, a).Some? && RunSet(digest, b).Some? && CollisionFree(digest, a, b)
    requires i < |a| && k < |b| && LastSha(a[i].envelopes) == LastSha(b[k].envelopes)
    ensures a[i].envelopes == b[k].envelopes && a[i].envelopes != []
  {
    hide RunFile, RunSet, Chained;
    OpensAfter(digest, a, i);
    OpensAfter(digest, b, k);
    var es, fs := a[i].envelopes, b[k].envelopes;
    assert FilesCollisionFree(digest, es, fs);
    forall n | 0 <= n < |es| ensures ChainedAt(digest, es, n) {
      FileIsChained(digest, RunSet(digest, a[..i]).value, es, n);
    }
    forall n | 0 <= n < |fs| ensures ChainedAt(digest, fs, n) {
      FileIsChained(digest, RunSet(digest, b[..k]).value, fs, n);
    }
    LastShaDeterminesFile(digest, es, fs);
  }

  /** The last digest determines every record, and every torn tail but the last one. */
  lemma {:induction false} LinkedSetsAgree(digest: Body -> Digest, a: seq<Segment>, b: seq<Segment>)
    requires RunSet(digest, a).Some? && RunSet(digest, b).Some?
    requires Starts(a) && LaterResume(a) && Starts(b) && LaterResume(b) && CollisionFree(digest, a, b)
    requires LastSha(a[|a| - 1].envelopes) == LastSha(b[|b| - 1].envelopes)
    ensures |a| == |b| && a[..|a| - 1] == b[..|b| - 1]
    ensures a[|a| - 1].envelopes == b[|b| - 1].envelopes
    decreases |a|
  {
    hide RunFile, RunSet, Links, LaterResume, FilesCollisionFree, LastSha;
    var m, n := |a| - 1, |b| - 1;
    SegmentsWithOneSha(digest, a, m, b, n);
    SameSide(a, b);
    if m > 0 {
      ResumesLast(a);
      ResumesLast(b);
      LinkedPrefix(a, m);
      LinkedPrefix(b, n);
      LinkedExactly(digest, a, m);
      LinkedExactly(digest, b, n);
      SameLink(a[m - 1], a[m], b[n - 1], b[n]);
      SetPrefixRuns(digest, a, m);
      SetPrefixRuns(digest, b, n);
      LinkedSetsAgree(digest, a[..m], b[..n]);
      assert a[..m] == a[..m][..m - 1] + [a[m - 1]] && b[..n] == b[..n][..n - 1] + [b[n - 1]];
    }
  }

  lemma ResumesLast(a: seq<Segment>)
    requires LaterResume(a) && |a| > 1
    ensures ResumesAt(a, |a| - 1)
  {
  }

  /** STARTED and RESUMED tell a set of one segment from a longer one. */
  lemma SameSide(a: seq<Segment>, b: seq<Segment>)
    requires Starts(a) && LaterResume(a) && Starts(b) && LaterResume(b)
    requires a[|a| - 1].envelopes == b[|b| - 1].envelopes
    ensures |a| == 1 <==> |b| == 1
  {
    assert |a| > 1 ==> ResumesAt(a, |a| - 1);
    assert |b| > 1 ==> ResumesAt(b, |b| - 1);
  }

  lemma SameLink(p: Segment, s: Segment, p': Segment, s': Segment)
    requires s.envelopes == s'.envelopes != [] && Links(p, s) && Links(p', s')
    ensures LastSha(p.envelopes) == LastSha(p'.envelopes) && p.tail == p'.tail
  {
  }

  /**
    One hash chain: two closed sets that the audit accepts, in which RESUMED opens every later
    segment, are equal when their reports carry the same last record digest.
   */
  lemma {:induction false} LastDigestDeterminesSet(digest: Body -> Digest, a: seq<Segment>, b: seq<Segment>)
    requires Accepted(digest, a, false) && Accepted(digest, b, false) && CollisionFree(digest, a, b)
    requires LaterResume(a) && LaterResume(b)
    requires RunSet(digest, a).value.lastRecordSha == RunSet(digest, b).value.lastRecordSha
    ensures a == b
  {
    hide RunSet, CollisionFree, LaterResume, LastSha;
    AcceptedOpens(digest, a, false);
    AcceptedOpens(digest, b, false);
    SetMarks(digest, a);
    SetMarks(digest, b);
    LinkedSetsAgree(digest, a, b);
    assert a == a[..|a| - 1] + [a[|a| - 1]] && b == b[..|b| - 1] + [b[|b| - 1]];
  }

  // ----- without RESUMED nothing pins the segment before -----

  /** Two states that differ by one more status record, and perhaps in the digests they remember. */
  ghost predicate Shadows(st: Audit, st': Audit) {
    st' == st.(core := OneMoreStatus(st.core),
               lastSegmentSha := st'.lastSegmentSha, lastRecordSha := st'.lastRecordSha)
  }

  function OneMoreStatus(c: Core): Core {
    c.(records := c.records + 1, statusRecords := c.statusRecords + 1)
  }

  /** No rule looks at the status count. */
  lemma CoreShadow(c: Core, p: Payload)
    requires CoreStep(c, p).Some?
    ensures CoreStep(OneMoreStatus(c), p) == Some(OneMoreStatus(CoreStep(c, p).value))
  {
    match p
    case TradeObservation(_, _, _) =>
    case TradeCorrection(_, _, _, _) =>
    case DepthObservation(_, _, _, _, _) =>
    case _ =>
  }

  lemma StepShadow(digest: Body -> Digest, st: Audit, st': Audit, e: Envelope, i: nat, previous: Digest)
    requires Shadows(st, st') && Step(digest, st, e, i, previous).Some?
    requires st.lastSegmentSha == st'.lastSegmentSha || !e.body.payload.Resumed?
    ensures Step(digest, st', e, i, previous).Some?
    ensures
      var next, next' := Step(digest, st, e, i, previous).value, Step(digest, st', e, i, previous).value;
      Shadows(next, next') && next.lastRecordSha == next'.lastRecordSha
      && next.lastSegmentSha == st.lastSegmentSha && next'.lastSegmentSha == st'.lastSegmentSha
  {
    hide CoreStep;
    CoreShadow(st.core, e.body.payload);
  }

  /** The same file keeps the two states side by side, and after it they remember the same digest. */
  lemma {:induction false} FileShadow(digest: Body -> Digest, st: Audit, st': Audit, es: seq<Envelope>)
    requires Shadows(st, st') && st.segments > 0 && RunFile(digest, st, es).Some?
    requires es != [] ==> st.lastRecordSha == st'.lastRecordSha || !es[0].body.payload.Resumed?
    ensures RunFile(digest, st', es).Some?
    ensures
      var end, end' := RunFile(digest, st, es).value, RunFile(digest, st', es).value;
      && Shadows(end, end') && (es != [] ==> end.lastRecordSha == end'.lastRecordSha)
      && end.lastSegmentSha == Some(st.lastRecordSha) && end'.lastSegmentSha == Some(st'.lastRecordSha)
  {
    hide Step, CoreStep;
    if es != [] {
      var last := |es| - 1;
      FileShadow(digest, st, st', es[..last]);
      var before, before' := RunFile(digest, st, es[..last]).value, RunFile(digest, st', es[..last]).value;
      if last > 0 {
        ResumedOnlyFirst(digest, before, es[last], last, LastSha(es[..last]));
      } else {
        assert es[..0] == [];
      }
      StepShadow(digest, before, before', es[last], last, LastSha(es[..last]));
    }
  }

  lemma ResumedOnlyFirst(digest: Body -> Digest, st: Audit, e: Envelope, i: nat, previous: Digest)
    requires Step(digest, st, e, i, previous).Some? && i > 0
    ensures !e.body.payload.Resumed? && !e.body.payload.Started?
  {
  }

  /** Where a status record can be slipped in: after an opening record, otherwise in front. */
  function SlipAt(ps: seq<Payload>): (k: nat)
    requires ps != []
    ensures k <= 1
  {
    if ps[0].Started? || ps[0].Resumed? then 1 else 0
  }

  function Slipped(ps: seq<Payload>, n: nat): seq<Payload>
    requires ps != [] && SlipAt(ps) <= n <= |ps|
  {
    ps[..SlipAt(ps)] + [DepthSwitchProven] + ps[SlipAt(ps)..n]
  }

  lemma {:induction false} PayloadAt(es: seq<Envelope>, i: nat)
    requires i < |es|
    ensures Payloads(es)[i] == es[i].body.payload
  {
    if i < |es| - 1 {
      PayloadAt(es[..|es| - 1], i);
    }
  }

  /** The records up to the slip are those of the file itself. */
  lemma WrittenOpening(digest: Body -> Digest, st: Audit, es: seq<Envelope>)
    requires es != [] && RunFile(digest, st, es).Some?
    ensures Write(digest, Payloads(es)[..1]) == es[..1]
  {
    hide RunFile;
    var p := Payloads(es)[0];
    FirstOfPayloads(es);
    FileIsChained(digest, st, es, 0);
    assert es[..0] == [] && Payloads(es)[..1] == [p] && [p][..0] == [];
    assert es[..1] == [es[0]];
  }

  lemma FilePrefixRuns(digest: Body -> Digest, st: Audit, es: seq<Envelope>, n: nat)
    requires RunFile(digest, st, es).Some? && n <= |es|
    ensures RunFile(digest, st, es[..n]).Some?
  {
    hide RunFile;
    if RunFile(digest, st, es[..n]).None? {
      FileStops(digest, st, es, n);
    }
  }

  lemma SlipStart(digest: Body -> Digest, st: Audit, es: seq<Envelope>)
    requires es != [] && RunFile(digest, st, es).Some?
    ensures
      var ps := Payloads(es);
      var k := SlipAt(ps);
      && RunFile(digest, st, es[..k]).Some? && RunFile(digest, st, Write(digest, Slipped(ps, k))).Some?
      && Shadows(RunFile(digest, st, es[..k]).value, RunFile(digest, st, Write(digest, Slipped(ps, k))).value)
  {
    hide RunFile, Write;
    var ps := Payloads(es);
    var k := SlipAt(ps);
    FilePrefixRuns(digest, st, es, k);
    EmptyFile(digest, st);
    NoRecords(digest, st);
    WrittenOpening(digest, st, es);
    assert es[..0] == [] && ps[..0] == [];
    OpeningIsOpen(digest, st, es, k);
    WrittenStep(digest, st, ps[..k], DepthSwitchProven);
    assert Slipped(ps, k) == ps[..k] + [DepthSwitchProven];
  }

  /** Neither an empty file nor one opening record has reached a terminal. */
  lemma OpeningIsOpen(digest: Body -> Digest, st: Audit, es: seq<Envelope>, k: nat)
    requires es != [] && k == SlipAt(Payloads(es)) && RunFile(digest, st, es[..k]).Some?
    ensures !RunFile(digest, st, es[..k]).value.terminalSeen
  {
    hide CoreStep, OpensRightly, Chained;
    FirstOfPayloads(es);
    if k == 1 {
      assert es[..1][..0] == [] && es[..1][0] == es[0];
    } else {
      assert es[..0] == [];
    }
  }

  lemma {:induction false} SlipKeepsRunning(digest: Body -> Digest, st: Audit, es: seq<Envelope>, n: nat)
    requires es != [] && RunFile(digest, st, es).Some? && SlipAt(Payloads(es)) <= n <= |es|
    ensures
      var ps := Payloads(es);
      && RunFile(digest, st, es[..n]).Some? && RunFile(digest, st, Write(digest, Slipped(ps, n))).Some?
      && Shadows(RunFile(digest, st, es[..n]).value, RunFile(digest, st, Write(digest, Slipped(ps, n))).value)
    decreases n
  {
    hide RunFile, Write, Step, CoreStep;
    var ps := Payloads(es);
    if n == SlipAt(ps) {
      SlipStart(digest, st, es);
    } else {
      var m := n - 1;
      SlipKeepsRunning(digest, st, es, m);
      FilePrefixRuns(digest, st, es, n);
      OneMoreRecord(digest, st, es, m);
      PayloadAt(es, m);
      SlipStep(digest, st, ps, m, RunFile(digest, st, es[..m]).value, es[m], LastSha(es[..m]));
    }
  }

  lemma SlipStep(digest: Body -> Digest, st: Audit, ps: seq<Payload>, m: nat, before: Audit, e: Envelope, previous: Digest)
    requires ps != [] && SlipAt(ps) <= m < |ps| && e.body.payload == ps[m]
    requires Step(digest, before, e, m, previous).Some?
    requires RunFile(digest, st, Write(digest, Slipped(ps, m))).Some?
    requires Shadows(before, RunFile(digest, st, Write(digest, Slipped(ps, m))).value)
    ensures RunFile(digest, st, Write(digest, Slipped(ps, m + 1))).Some?
    ensures Shadows(Step(digest, before, e, m, previous).value, RunFile(digest, st, Write(digest, Slipped(ps, m + 1))).value)
  {
    hide RunFile, Write, CoreStep;
    assert Slipped(ps, m + 1) == Slipped(ps, m) + [ps[m]];
    if m > 0 {
      ResumedOnlyFirst(digest, before, e, m, previous);
    }
    CoreShadow(before.core, ps[m]);
    WrittenStep(digest, st, Slipped(ps, m), ps[m]);
  }

  /** The set with a status record slipped into its segment `i`. */
  function SlippedSet(digest: Body -> Digest, a: seq<Segment>, i: nat): seq<Segment>
    requires i < |a| && a[i].envelopes != []
  {
    var ps := Payloads(a[i].envelopes);
    a[i := Segment(Write(digest, Slipped(ps, |ps|)), a[i].tail)]
  }

  lemma SlippedSegmentRuns(digest: Body -> Digest, a: seq<Segment>, i: nat)
    requires RunSet(digest, a).Some? && i < |a| && a[i].envelopes != []
    ensures
      var b := SlippedSet(digest, a, i);
      && RunSet(digest, a[..i + 1]).Some? && RunSet(digest, b[..i + 1]).Some?
      && Shadows(RunSet(digest, a[..i + 1]).value, RunSet(digest, b[..i + 1]).value)
      && b[i].envelopes != a[i].envelopes
  {
    hide RunFile, RunSet, Write, Slipped, SlipAt, Payloads;
    var b, es := SlippedSet(digest, a, i), a[i].envelopes;
    var ps := Payloads(es);
    OpensAfter(digest, a, i);
    var st := RunSet(digest, a[..i]).value;
    SlipKeepsRunning(digest, st, es, |es|);
    assert es[..|es|] == es;
    SlippedSize(ps);
    WriteSize(digest, Slipped(ps, |ps|));
    assert b[..i] == a[..i];
    OneMoreSegment(digest, a, i);
    OneMoreSegment(digest, b, i);
  }

  lemma OneMoreSegment(digest: Body -> Digest, segments: seq<Segment>, i: nat)
    requires i < |segments| && segments[i].envelopes != [] && RunSet(digest, segments[..i]).Some?
    requires RunFile(digest, RunSet(digest, segments[..i]).value, segments[i].envelopes).Some?
    ensures RunSet(digest, segments[..i + 1]) ==
            Some(Closed(RunFile(digest, RunSet(digest, segments[..i]).value, segments[i].envelopes).value, segments[i].tail))
  {
    hide RunFile;
    assert segments[..i + 1][..i] == segments[..i];
  }

  lemma SlippedSize(ps: seq<Payload>)
    requires ps != []
    ensures SlipAt(ps) <= |ps| && |Slipped(ps, |ps|)| == |ps| + 1
  {
  }

  lemma {:induction false} LaterSegmentsRun(digest: Body -> Digest, a: seq<Segment>, i: nat, j: nat)
    requires RunSet(digest, a).Some? && i + 1 < j <= |a|
    requires a[i].envelopes != [] && a[i + 1].envelopes != [] && !FirstOf(a[i + 1]).Resumed?
    ensures
      var b := SlippedSet(digest, a, i);
      && RunSet(digest, a[..j]).Some? && RunSet(digest, b[..j]).Some?
      && Shadows(RunSet(digest, a[..j]).value, RunSet(digest, b[..j]).value)
      && RunSet(digest, a[..j]).value.lastRecordSha == RunSet(digest, b[..j]).value.lastRecordSha
    decreases j
  {
    hide RunFile, RunSet, SlippedSet;
    var b, m := SlippedSet(digest, a, i), j - 1;
    SlippedElsewhere(digest, a, i, m);
    if m == i + 1 {
      SlippedSegmentRuns(digest, a, i);
    } else {
      LaterSegmentsRun(digest, a, i, m);
    }
    OpensAfter(digest, a, m);
    SetIsOneRun(digest, a[..m]);
    FileShadow(digest, RunSet(digest, a[..m]).value, RunSet(digest, b[..m]).value, a[m].envelopes);
    OneMoreSegment(digest, a, m);
    OneMoreSegment(digest, b, m);
  }

  lemma SlippedElsewhere(digest: Body -> Digest, a: seq<Segment>, i: nat, m: nat)
    requires i < m < |a| && a[i].envelopes != []
    ensures |SlippedSet(digest, a, i)| == |a| && SlippedSet(digest, a, i)[m] == a[m]
    ensures SlippedSet(digest, a, i)[|a| - 1] == a[|a| - 1]
  {
  }

  /**
    The converse: where a later segment is not opened by RESUMED, a status record slipped into the
    segment before it gives a different set that the audit accepts with the same last digest.
   */
  lemma {:induction false} UnlinkedSegmentHidesChanges(digest: Body -> Digest, a: seq<Segment>, i: nat, incremental: bool) returns (b: seq<Segment>)
    requires Accepted(digest, a, incremental) && i + 1 < |a|
    requires a[i + 1].envelopes != [] && !FirstOf(a[i + 1]).Resumed?
    ensures b != a && Accepted(digest, b, incremental)
    ensures RunSet(digest, b).value.lastRecordSha == RunSet(digest, a).value.lastRecordSha
  {
    hide RunSet, SlippedSet;
    OpensAfter(digest, a, i);
    b := SlippedSet(digest, a, i);
    SlippedSegmentRuns(digest, a, i);
    LaterSegmentsRun(digest, a, i, |a|);
    SlippedElsewhere(digest, a, i, i + 1);
    assert a[..|a|] == a && b[..|a|] == b;
  }

  // ----- an accepted set that is not one chain -----

  const CLOSING := Closing(0, 0, 0, 0)

  /** A segment with only STARTED, and one with only a TERMINAL, which names nothing. */
  function Unlinked(digest: Body -> Digest, symbol: string): seq<Segment> {
    [Segment(Write(digest, [Opening(symbol)]), 0), Segment(Write(digest, [CLOSING]), 0)]
  }

  lemma FirstRuns(digest: Body -> Digest, symbol: string)
    ensures RunSet(digest, Unlinked(digest, symbol)[..1]).Some?
    ensures
      var st := RunSet(digest, Unlinked(digest, symbol)[..1]).value;
      st.core == FRESH_CORE.(records := 1, started := true)
  {
    hide RunFile, Write;
    var p := Opening(symbol);
    EmptyFile(digest, FRESH_AUDIT);
    WrittenStep(digest, FRESH_AUDIT, [], p);
    assert [] + [p] == [p];
    WriteSize(digest, [p]);
    OneSegment(digest, Unlinked(digest, symbol)[0]);
    assert Unlinked(digest, symbol)[..1] == [Unlinked(digest, symbol)[0]];
  }

  lemma UnlinkedIsAccepted(digest: Body -> Digest, symbol: string)
    ensures Accepted(digest, Unlinked(digest, symbol), false)
    ensures RunSet(digest, Unlinked(digest, symbol)).value.lastRecordSha == LastSha(Write(digest, [CLOSING]))
  {
    hide RunFile, Write;
    FirstRuns(digest, symbol);
    var st := RunSet(digest, Unlinked(digest, symbol)[..1]).value;
    EmptyFile(digest, st);
    WrittenStep(digest, st, [], CLOSING);
    assert [] + [CLOSING] == [CLOSING];
    WriteSize(digest, [CLOSING]);
    assert RunFile(digest, st, Write(digest, [CLOSING])).Some?;
  }

  lemma UnlinkedOpening(digest: Body -> Digest, symbol: string)
    ensures
      var segments := Unlinked(digest, symbol);
      && segments[0].envelopes != [] && FirstOf(segments[0]) == Opening(symbol)
      && segments[1].envelopes != [] && FirstOf(segments[1]) == CLOSING
  {
    hide Write;
    var p := Opening(symbol);
    WriteSize(digest, [p]);
    WriteSize(digest, [CLOSING]);
    FirstOfPayloads(Write(digest, [p]));
    FirstOfPayloads(Write(digest, [CLOSING]));
  }

  /**
    The audit does not require RESUMED: whatever the digest function, two different sets pass the
    closed audit with the same last record digest, and neither has a linked segment.
   */
  lemma {:induction false} AcceptedSetsNeedNotBeOneChain(digest: Body -> Digest)
    ensures
      var a, b := Unlinked(digest, "BTCUSDT"), Unlinked(digest, "ETHUSDT");
      && a != b && Accepted(digest, a, false) && Accepted(digest, b, false)
      && RunSet(digest, a).value.lastRecordSha == RunSet(digest, b).value.lastRecordSha
      && a[1].envelopes != [] && !Links(a[0], a[1]) && b[1].envelopes != [] && !Links(b[0], b[1])
  {
    hide Write, RunSet, Accepted, LastSha;
    UnlinkedIsAccepted(digest, "BTCUSDT");
    UnlinkedIsAccepted(digest, "ETHUSDT");
    UnlinkedOpening(digest, "BTCUSDT");
    UnlinkedOpening(digest, "ETHUSDT");
    assert "BTCUSDT"[0] != "ETHUSDT"[0];
  }
}
