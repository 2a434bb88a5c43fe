/**
  The manifest of sealed raw segments, read strictly at a terminal audit and tolerantly while a
  writer may still be appending, and the one raw log that its segments form together.
 */
module SegmentManifest {
  import opened Wrappers
  import opened ChainLog
  import RawLog

  datatype Seal = Seal(
    segmentIndex: nat,
    rawFile: string,
    firstFrame: nat,
    lastFrame: nat,
    records: nat,
    throughOffset: nat,
    connectionEpoch: string,
    stream: string,
    previousTerminal: Bytes,
    terminal: Bytes)

  datatype ManifestRecord = ManifestRecord(recordIndex: nat, previous: Bytes, seal: Seal)

  /** `decode` yields nothing for a body that is not the canonical encoding of a record. */
  datatype Codec = Codec(hash: Bytes -> Bytes, decode: Bytes -> Option<ManifestRecord>)

  datatype ManifestState = ManifestState(previous: Bytes, seals: seq<Seal>)

  const MAGIC: Bytes := [66, 78, 83, 69, 71, 0, 1, 10]
  const MAX_RECORD_BYTES: nat := 1024 * 1024

  /** `_validate_seal`. */
  predicate SealOk(seal: Seal, index: nat) {
    && seal.segmentIndex == index
    && seal.records != 0 && seal.throughOffset > |RawLog.MAGIC|
    && seal.firstFrame <= seal.lastFrame && seal.records == seal.lastFrame - seal.firstFrame + 1
    && (|| (seal.segmentIndex == 0 && seal.firstFrame == 0 && seal.previousTerminal == ZERO_DIGEST)
        || (seal.segmentIndex > 0 && seal.firstFrame > 0 && seal.previousTerminal != ZERO_DIGEST))
    && seal.terminal != ZERO_DIGEST
  }

  /** The next seal continues the last one exactly. */
  predicate Continues(prior: Seal, seal: Seal) {
    && seal.segmentIndex == prior.segmentIndex + 1
    && seal.connectionEpoch == prior.connectionEpoch && seal.stream == prior.stream
    && seal.firstFrame == prior.lastFrame + 1
    && seal.previousTerminal == prior.terminal
  }

  predicate FileUnused(seals: seq<Seal>, rawFile: string) {
    forall i :: 0 <= i < |seals| ==> seals[i].rawFile != rawFile
  }

  function AcceptSeal(c: Codec, st: ManifestState, body: Bytes): Option<ManifestState> {
    var record := c.decode(body);
    if record.None? then None
    else
      var seal := record.value.seal;
      if record.value.recordIndex != |st.seals| || record.value.previous != st.previous then None
      else if !SealOk(seal, record.value.recordIndex) || !FileUnused(st.seals, seal.rawFile) then None
      else if st.seals != [] && !Continues(st.seals[|st.seals| - 1], seal) then None
      else if st.seals == [] && !(seal.segmentIndex == 0 && seal.firstFrame == 0
                                  && seal.previousTerminal == ZERO_DIGEST) then None
      else Some(ManifestState(c.hash(body), st.seals + [seal]))
  }

  function ManifestFormat(c: Codec): Format<ManifestState> {
    Format(MAGIC, 1, MAX_RECORD_BYTES, c.hash, ManifestState(ZERO_DIGEST, []),
           (st: ManifestState, body: Bytes) => AcceptSeal(c, st, body))
  }

  datatype ManifestScan = ManifestScan(lastGoodOffset: nat, lastDigest: Bytes, seals: seq<Seal>)

  datatype ManifestError = Corrupt(reason: Reason) | NoSeals

  /** The seals that the manifest records carry, in order. */
  ghost function SealsOf(c: Codec, bodies: seq<Bytes>): seq<Seal> {
    if bodies == [] then []
    else
      var record := c.decode(bodies[|bodies| - 1]);
      SealsOf(c, bodies[..|bodies| - 1]) + (if record.Some? then [record.value.seal] else [])
  }

  /** The records of a manifest that the tolerant scan accepts. */
  ghost function ManifestBodies(c: Codec, file: Bytes): seq<Bytes>
    requires |file| >= |MAGIC|
  {
    Scan(ManifestFormat(c), ManifestFormat(c).start, file[|MAGIC|..]).bodies
  }

  /**
    `_scan_segment_manifest_prefix` never fails: it stops at the end of the longest prefix that
    the strict reading accepts and returns the seals of exactly that prefix.
   */
  method ScanPrefix(c: Codec, file: Bytes) returns (scan: ManifestScan)
    ensures !(MAGIC <= file) ==> scan == ManifestScan(0, ZERO_DIGEST, [])
    ensures ManifestFormat(c).Valid() && MAGIC <= file ==>
      && scan.seals == SealsOf(c, ManifestBodies(c, file)) && |scan.seals| == |ManifestBodies(c, file)|
      && scan.lastDigest == (if scan.seals == [] then ZERO_DIGEST else c.hash(ManifestBodies(c, file)[|scan.seals| - 1]))
      && ReadsStrictly(ManifestFormat(c), file, scan.lastGoodOffset, ManifestBodies(c, file))
      && forall n: nat, others :: ReadsStrictly(ManifestFormat(c), file, n, others) ==>
           n <= scan.lastGoodOffset && others <= ManifestBodies(c, file)
    ensures var r := ScanFile(ManifestFormat(c), file);
      scan == ManifestScan(r.lastGoodOffset, r.state.previous, r.state.seals)
  {
    hide Scan, Fold, Frames, AllAdmissible, AcceptSeal;
    var r := ScanLog(ManifestFormat(c), file);
    scan := ManifestScan(r.lastGoodOffset, r.state.previous, r.state.seals);
    if MAGIC <= file && ManifestFormat(c).Valid() {
      ScanFileIsLongest(ManifestFormat(c), file);
      SealsAreDecoded(c, ManifestBodies(c, file), r.state);
    }
  }

  lemma {:induction false} SealsAreDecoded(c: Codec, bodies: seq<Bytes>, st: ManifestState)
    requires Fold(ManifestFormat(c), ManifestFormat(c).start, bodies) == Some(st)
    ensures st.seals == SealsOf(c, bodies) && |st.seals| == |bodies|
    ensures st.previous == (if bodies == [] then ZERO_DIGEST else c.hash(bodies[|bodies| - 1]))
  {
    if bodies != [] {
      hide Fold;
      var last, f := |bodies| - 1, ManifestFormat(c);
      FoldLast(f, f.start, bodies);
      var before := Fold(f, f.start, bodies[..last]).value;
      SealsAreDecoded(c, bodies[..last], before);
      assert AcceptSeal(c, before, bodies[last]) == Some(st);
    }
  }

  /**
    `_scan_segment_manifest`: fails at the first record-level problem.  It accepts exactly the
    files that the tolerant scan reads to the end, and then both return the same seals.
   */
  method ScanStrict(c: Codec, file: Bytes, requireSeals: bool) returns (r: Result<ManifestScan, ManifestError>)
    ensures
      var scan := ScanFile(ManifestFormat(c), file);
      && (r.Ok? <==> scan.reason == CleanEof && (requireSeals ==> scan.state.seals != []))
      && (r.Ok? ==> r.value == ManifestScan(scan.lastGoodOffset, scan.state.previous, scan.state.seals))
      && (r.Err? && r.error.Corrupt? ==> r.error.reason == scan.reason != CleanEof)
  {
    hide ReadOne;
    var f := ManifestFormat(c);
    if !(f.magic <= file) {
      return Err(Corrupt(BadMagic));
    }
    var offset, state := |f.magic|, f.start;
    ghost var whole := Scan(f, f.start, file[|f.magic|..]);
    while offset < |file|
      invariant |f.magic| <= offset <= |file|
      invariant var tail := Scan(f, state, file[offset..]);
        && |f.magic| + whole.consumed == offset + tail.consumed
        && whole.state == tail.state && whole.reason == tail.reason
      decreases |file| - offset
    {
      var step := ReadOne(f, state, file[offset..]);
      if step.Stop? {
        StopReason(f, state, file[offset..]);
        return Err(Corrupt(step.reason));
      }
      assert file[offset..][step.size..] == file[offset + step.size..];
      offset, state := offset + step.size, step.state;
    }
    AtTheEnd(f, state);
    assert file[offset..] == [];
    if requireSeals && state.seals == [] {
      return Err(NoSeals);
    }
    return Ok(ManifestScan(offset, state.previous, state.seals));
  }

  lemma AtTheEnd(f: Format<ManifestState>, st: ManifestState)
    ensures Scan(f, st, []) == Scanned([], st, 0, CleanEof)
  {
  }

  // ----- what accepted seals say -----

  /** Every accepted seal is valid, starts at the root or continues its predecessor. */
  ghost predicate SealsOk(seals: seq<Seal>) {
    && (forall i :: 0 <= i < |seals| ==> SealOk(seals[i], i))
    && (seals != [] ==> seals[0].firstFrame == 0 && seals[0].previousTerminal == ZERO_DIGEST)
    && (forall i :: 0 < i < |seals| ==> Continues(seals[i - 1], seals[i]))
    && (forall i, j :: 0 <= i < j < |seals| ==> seals[i].rawFile != seals[j].rawFile)
  }

  lemma {:induction false} AcceptedSealsAreOk(c: Codec, st: ManifestState, bodies: seq<Bytes>)
    requires SealsOk(st.seals)
    requires Fold(ManifestFormat(c), st, bodies).Some?
    ensures SealsOk(Fold(ManifestFormat(c), st, bodies).value.seals)
    decreases |bodies|
  {
    if bodies != [] {
      var next := AcceptSeal(c, st, bodies[0]).value;
      OneMoreSeal(st.seals, next.seals[|st.seals|]);
      AcceptedSealsAreOk(c, next, bodies[1..]);
    }
  }

  lemma OneMoreSeal(seals: seq<Seal>, seal: Seal)
    requires SealsOk(seals) && SealOk(seal, |seals|) && FileUnused(seals, seal.rawFile)
    requires if seals == [] then seal.firstFrame == 0 && seal.previousTerminal == ZERO_DIGEST
             else Continues(seals[|seals| - 1], seal)
    ensures SealsOk(seals + [seal])
  {
    var more := seals + [seal];
    forall i | 0 < i < |more| ensures Continues(more[i - 1], more[i]) {
      if i < |seals| {
        assert Continues(seals[i - 1], seals[i]);
      }
    }
  }

  ghost function TotalRecords(seals: seq<Seal>): nat {
    if seals == [] then 0 else TotalRecords(seals[..|seals| - 1]) + seals[|seals| - 1].records
  }

  /** Sealed segments tile the frame indices from 0 without gap or overlap. */
  lemma {:induction false} SealsTileFrames(seals: seq<Seal>)
    requires SealsOk(seals) && seals != []
    ensures TotalRecords(seals) == seals[|seals| - 1].lastFrame + 1
  {
    var last := |seals| - 1;
    if last > 0 {
      assert SealsOk(seals[..last]);
      SealsTileFrames(seals[..last]);
      assert Continues(seals[last - 1], seals[last]);
    } else {
      assert seals[..0] == [];
    }
  }

  // ----- the segments are one log -----

  ghost function Flatten(segments: seq<seq<Bytes>>): seq<Bytes> {
    if segments == [] then []
    else Flatten(segments[..|segments| - 1]) + segments[|segments| - 1]
  }

  function Genesis(key: RawLog.Key, previous: Bytes, first: nat): RawLog.RawState {
    RawLog.RawState(previous, map[key := first])
  }

  /** The records of a segment lead from the seal's genesis to its terminal. */
  ghost predicate SegmentMatches(c: RawLog.Codec, key: RawLog.Key, seal: Seal, bodies: seq<Bytes>) {
    Fold(RawLog.RawFormat(c), Genesis(key, seal.previousTerminal, seal.firstFrame), bodies)
    == Some(Genesis(key, seal.terminal, seal.lastFrame + 1))
  }

  lemma {:induction false} SegmentsContinueTheChain(c: RawLog.Codec, key: RawLog.Key, seals: seq<Seal>, segments: seq<seq<Bytes>>)
    requires SealsOk(seals) && seals != [] && |segments| == |seals|
    requires forall i :: 0 <= i < |seals| ==> SegmentMatches(c, key, seals[i], segments[i])
    ensures Fold(RawLog.RawFormat(c), Genesis(key, ZERO_DIGEST, 0), Flatten(segments))
         == Some(Genesis(key, seals[|seals| - 1].terminal, seals[|seals| - 1].lastFrame + 1))
  {
    hide Fold, SealOk;
    var last := |seals| - 1;
    assert SegmentMatches(c, key, seals[last], segments[last]);
    if last == 0 {
      assert segments[..0] == [] && Flatten([]) == [];
      assert [] + segments[0] == segments[0];
    } else {
      assert SealsOk(seals[..last]);
      SegmentsContinueTheChain(c, key, seals[..last], segments[..last]);
      assert Continues(seals[last - 1], seals[last]);
      FoldConcat(RawLog.RawFormat(c), Genesis(key, ZERO_DIGEST, 0), Flatten(segments[..last]), segments[last]);
    }
  }

  lemma {:induction false} StreamsOnlyGrow(c: RawLog.Codec, st: RawLog.RawState, bodies: seq<Bytes>)
    requires Fold(RawLog.RawFormat(c), st, bodies).Some?
    ensures st.nextIndex.Keys <= Fold(RawLog.RawFormat(c), st, bodies).value.nextIndex.Keys
    decreases |bodies|
  {
    if bodies != [] {
      StreamsOnlyGrow(c, RawLog.AcceptRaw(c, st, bodies[0]).value, bodies[1..]);
    }
  }

  /** A log of one stream may as well start with no stream known. */
  lemma StartsFresh(c: RawLog.Codec, key: RawLog.Key, bodies: seq<Bytes>, end: RawLog.RawState)
    requires bodies != [] && end.nextIndex.Keys == {key}
    requires Fold(RawLog.RawFormat(c), Genesis(key, ZERO_DIGEST, 0), bodies) == Some(end)
    ensures Fold(RawLog.RawFormat(c), RawLog.RawFormat(c).start, bodies) == Some(end)
  {
    var f := RawLog.RawFormat(c);
    var st, st' := Genesis(key, ZERO_DIGEST, 0), f.start;
    var next := RawLog.AcceptRaw(c, st, bodies[0]).value;
    StreamsOnlyGrow(c, next, bodies[1..]);
    var k := RawLog.KeyOf(c.decode(bodies[0]).value.frame);
    assert k in next.nextIndex.Keys;
    assert k == key;
    assert RawLog.AcceptRaw(c, st', bodies[0]) == Some(next) by {
      assert map[key := 0][key := 1] == map[][key := 1];
    }
  }

  lemma NotEmpty(c: RawLog.Codec, key: RawLog.Key, end: RawLog.RawState, bodies: seq<Bytes>)
    requires Fold(RawLog.RawFormat(c), Genesis(key, ZERO_DIGEST, 0), bodies) == Some(end)
    requires key in end.nextIndex && end.nextIndex[key] > 0
    ensures bodies != []
  {
  }

  /**
    The sealed segments of an accepted manifest, laid end to end, are one clean raw log that ends
    at the last seal's terminal digest with every stream frame accounted for.
   */
  lemma {:induction false} SegmentsFormOneLog(c: RawLog.Codec, key: RawLog.Key, seals: seq<Seal>, segments: seq<seq<Bytes>>)
    requires c.Valid() && SealsOk(seals) && seals != [] && |segments| == |seals|
    requires forall i :: 0 <= i < |seals| ==> SegmentMatches(c, key, seals[i], segments[i])
    requires AllAdmissible(RawLog.RawFormat(c), Flatten(segments))
    ensures
      var file := RawLog.MAGIC + Frames(RawLog.RawFormat(c), Flatten(segments));
      var scan := RawLog.ScanRaw(c, file);
      && scan.reason == CleanEof
      && scan.records == |Flatten(segments)|
      && scan.lastRecordDigest == seals[|seals| - 1].terminal
      && scan.streams == map[key := seals[|seals| - 1].lastFrame as int]
  {
    hide Fold, Scan, Frames, SealOk, SegmentMatches;
    var f := RawLog.RawFormat(c);
    var bodies := Flatten(segments);
    var end := Genesis(key, seals[|seals| - 1].terminal, seals[|seals| - 1].lastFrame + 1);
    SegmentsContinueTheChain(c, key, seals, segments);
    NotEmpty(c, key, end, bodies);
    StartsFresh(c, key, bodies, end);
    ScanOfFrames(f, f.start, bodies);
    var file := RawLog.MAGIC + Frames(f, bodies);
    assert f.magic <= file && file[|f.magic|..] == Frames(f, bodies);
    assert RawLog.Watermarks(end.nextIndex) == map[key := seals[|seals| - 1].lastFrame as int];
  }
}
