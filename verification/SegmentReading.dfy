/**
  Reading one raw segment from the chain context that its predecessor's seal gives, and what the
  readings of all sealed segments are together.
 */
module SegmentReading {
  import opened Wrappers
  import opened ChainLog
  import opened SegmentManifest
  import RawLog

  function KeyOfSeal(seal: Seal): RawLog.Key {
    (seal.connectionEpoch, seal.stream)
  }

  /** The per-record checks of `_scan_segment_boundary`: chain, stream identity and frame index. */
  function AcceptInStream(c: RawLog.Codec, key: RawLog.Key, st: RawLog.RawState, body: Bytes): Option<RawLog.RawState> {
    var record := c.decode(body);
    if record.None? || RawLog.KeyOf(record.value.frame) != key then None else RawLog.AcceptRaw(c, st, body)
  }

  /** A raw log of one stream that starts at a given digest and frame. */
  function SegmentFormat(c: RawLog.Codec, key: RawLog.Key, previous: Bytes, first: nat): Format<RawLog.RawState> {
    Format(RawLog.MAGIC, 0, RawLog.MAX_RECORD_BYTES, c.hash, Genesis(key, previous, first),
           (st, body) => AcceptInStream(c, key, st, body))
  }

  /** The records of a segment file that continue the chain. */
  ghost function SegmentBodies(c: RawLog.Codec, key: RawLog.Key, previous: Bytes, first: nat, file: Bytes): seq<Bytes>
    requires |file| >= |RawLog.MAGIC|
  {
    var f := SegmentFormat(c, key, previous, first);
    Scan(f, f.start, file[|RawLog.MAGIC|..]).bodies
  }

  datatype SegmentError = InvalidGenesis | BadSegmentMagic | ChangedDuringReplay

  /**
    `iter_raw_segment_records`: the records of the longest prefix that continues the chain, each
    once with contiguous offsets.  It is refused only for its arguments or the magic: a record that
    does not continue the chain ends the reading without an error.
   */
  method IterRawSegmentRecords(c: RawLog.Codec, key: RawLog.Key, previous: Bytes, first: nat, file: Bytes)
    returns (r: Result<seq<RawLog.Envelope>, SegmentError>)
    requires c.Valid()
    ensures r == Err(InvalidGenesis) <==> |previous| != DIGEST_SIZE || key.0 == "" || key.1 == ""
    ensures r == Err(BadSegmentMagic) <==>
      |previous| == DIGEST_SIZE && key.0 != "" && key.1 != "" && !(RawLog.MAGIC <= file)
    ensures r.Err? ==> r.error != ChangedDuringReplay
    ensures r.Ok? ==>
      var f, bodies := SegmentFormat(c, key, previous, first), SegmentBodies(c, key, previous, first, file);
      && RawLog.Covers(c, r.value, bodies, ScanFile(f, file).lastGoodOffset)
      && IsLongest(f, file, ScanFile(f, file), bodies)
  {
    hide ReadOne, Fold, Frames, Scan, RawLog.Covers, IsLongest;
    if |previous| != DIGEST_SIZE || key.0 == "" || key.1 == "" {
      return Err(InvalidGenesis);
    }
    if !(RawLog.MAGIC <= file) {
      return Err(BadSegmentMagic);
    }
    var f := SegmentFormat(c, key, previous, first);
    var scan := ScanLog(f, file);
    ScanFileIsLongest(f, file);
    ghost var whole := Scan(f, f.start, file[|RawLog.MAGIC|..]);
    ghost var done: seq<Bytes> := [];
    var envelopes: seq<RawLog.Envelope>, offset, state := [], |RawLog.MAGIC|, f.start;
    RawLog.NothingCovered(c);
    while offset < scan.lastGoodOffset
      invariant |RawLog.MAGIC| <= offset <= |file|
      invariant RawLog.Covers(c, envelopes, done, offset)
      invariant var tail := Scan(f, state, file[offset..]);
        && whole.bodies == done + tail.bodies
        && scan.lastGoodOffset == offset + tail.consumed
      decreases |file| - offset
    {
      RawLog.OneStep(f, state, file[offset..]);
      var step := ReadOne(f, state, file[offset..]);
      if step.Stop? {
        assert false;
        return Err(ChangedDuringReplay);
      }
      DecodesInStream(c, key, previous, first, state, file[offset..]);
      assert file[offset..][step.size..] == file[offset + step.size..];
      var record := c.decode(step.body).value;
      RawLog.CoversOneMore(c, envelopes, done, offset, step.size, step.body);
      envelopes := envelopes +
        [RawLog.Envelope(|envelopes|, offset, offset + step.size, c.hash(step.body), record.frame)];
      done := done + [step.body];
      offset, state := offset + step.size, step.state;
    }
    RawLog.NothingLeft(f, state, file[offset..]);
    assert done == whole.bodies;
    return Ok(envelopes);
  }

  lemma DecodesInStream(c: RawLog.Codec, key: RawLog.Key, previous: Bytes, first: nat, st: RawLog.RawState, rest: Bytes)
    requires c.Valid() && ReadOne(SegmentFormat(c, key, previous, first), st, rest).Good?
    ensures c.decode(ReadOne(SegmentFormat(c, key, previous, first), st, rest).body).Some?
  {
    hide ReadOne;
    ReadOneIsFramed(SegmentFormat(c, key, previous, first), st, rest);
  }

  // ----- readings and seals -----

  /** A reading from the context of a seal is also a reading of the raw log from there. */
  lemma {:induction false} ReadsAsRawLog(c: RawLog.Codec, key: RawLog.Key, previous: Bytes, first: nat, st: RawLog.RawState, bodies: seq<Bytes>)
    requires Fold(SegmentFormat(c, key, previous, first), st, bodies).Some?
    ensures Fold(RawLog.RawFormat(c), st, bodies) == Fold(SegmentFormat(c, key, previous, first), st, bodies)
    decreases |bodies|
  {
    if bodies != [] {
      var next := AcceptInStream(c, key, st, bodies[0]).value;
      ReadsAsRawLog(c, key, previous, first, next, bodies[1..]);
    }
  }

  /** The format and the records read for a seal. */
  function FormatOf(c: RawLog.Codec, seal: Seal): Format<RawLog.RawState> {
    SegmentFormat(c, KeyOfSeal(seal), seal.previousTerminal, seal.firstFrame)
  }

  ghost function BodiesOf(c: RawLog.Codec, seal: Seal, file: Bytes): seq<Bytes> {
    if |file| < |RawLog.MAGIC| then []
    else SegmentBodies(c, KeyOfSeal(seal), seal.previousTerminal, seal.firstFrame, file)
  }

  /** The reading of the file ends at the terminal digest and the last frame of the seal. */
  ghost predicate ReachesSeal(c: RawLog.Codec, seal: Seal, file: Bytes) {
    && RawLog.MAGIC <= file
    && ScanFile(FormatOf(c, seal), file).state == Genesis(KeyOfSeal(seal), seal.terminal, seal.lastFrame + 1)
  }

  lemma ReachingMatches(c: RawLog.Codec, seal: Seal, file: Bytes)
    requires c.Valid() && ReachesSeal(c, seal, file)
    ensures SegmentMatches(c, KeyOfSeal(seal), seal, BodiesOf(c, seal, file))
    ensures AllAdmissible(RawLog.RawFormat(c), BodiesOf(c, seal, file))
  {
    hide Fold, Scan, Frames;
    var f := FormatOf(c, seal);
    ScanFileIsLongest(f, file);
    ReadsAsRawLog(c, KeyOfSeal(seal), seal.previousTerminal, seal.firstFrame, f.start, BodiesOf(c, seal, file));
  }

  /**
    The readings of the sealed segments of an accepted manifest, each reaching its seal, are one
    clean raw log that ends at the last terminal with every frame of the stream accounted for.
   */
  lemma {:induction false} ReadSegmentsFormOneLog(c: RawLog.Codec, seals: seq<Seal>, files: seq<Bytes>)
    requires c.Valid() && SealsOk(seals) && seals != [] && |files| == |seals|
    requires forall i :: 0 <= i < |seals| ==> ReachesSeal(c, seals[i], files[i])
    ensures
      var segments := Readings(c, seals, files);
      var last := seals[|seals| - 1];
      && AllAdmissible(RawLog.RawFormat(c), Flatten(segments))
      && var scan := RawLog.ScanRaw(c, RawLog.MAGIC + Frames(RawLog.RawFormat(c), Flatten(segments)));
         && scan.reason == CleanEof && scan.records == |Flatten(segments)|
         && scan.lastRecordDigest == last.terminal
         && scan.streams == map[KeyOfSeal(last) := last.lastFrame as int]
  {
    hide Fold, Scan, Frames, SealOk, SealsOk, SegmentMatches, ReachesSeal, RawLog.ScanRaw, AllAdmissible;
    var segments := Readings(c, seals, files);
    forall i | 0 <= i < |seals|
      ensures SegmentMatches(c, KeyOfSeal(seals[|seals| - 1]), seals[i], segments[i])
      ensures AllAdmissible(RawLog.RawFormat(c), segments[i])
    {
      assert ReachesSeal(c, seals[i], files[i]);
      ReachingMatches(c, seals[i], files[i]);
      OneStream(seals, i, |seals| - 1);
    }
    AllOfFlatten(c, segments);
    SegmentsFormOneLog(c, KeyOfSeal(seals[|seals| - 1]), seals, segments);
  }

  /** The records read for each seal. */
  ghost function Readings(c: RawLog.Codec, seals: seq<Seal>, files: seq<Bytes>): (segments: seq<seq<Bytes>>)
    requires |files| == |seals|
    ensures |segments| == |seals|
    ensures forall i :: 0 <= i < |seals| ==> segments[i] == BodiesOf(c, seals[i], files[i])
  {
    seq(|seals|, i requires 0 <= i < |seals| => BodiesOf(c, seals[i], files[i]))
  }

  lemma {:induction false} OneStream(seals: seq<Seal>, i: nat, j: nat)
    requires SealsOk(seals) && i <= j < |seals|
    ensures KeyOfSeal(seals[i]) == KeyOfSeal(seals[j])
    decreases j
  {
    hide SealOk;
    if i < j {
      assert Continues(seals[j - 1], seals[j]);
      OneStream(seals, i, j - 1);
    }
  }

  lemma {:induction false} AllOfFlatten(c: RawLog.Codec, segments: seq<seq<Bytes>>)
    requires c.Valid() && forall i :: 0 <= i < |segments| ==> AllAdmissible(RawLog.RawFormat(c), segments[i])
    ensures AllAdmissible(RawLog.RawFormat(c), Flatten(segments))
  {
    if segments != [] {
      AllOfFlatten(c, segments[..|segments| - 1]);
    }
  }

  // ----- a reading may be short -----

  /**
    A sealed file cut anywhere is read without an error, and the reading holds exactly the whole
    records before the cut: nothing compares it with the terminal of the seal.
   */
  lemma {:induction false} CutSegmentIsReadShort(c: RawLog.Codec, seal: Seal, bodies: seq<Bytes>, cut: nat) returns (m: nat)
    requires c.Valid() && Readable(FormatOf(c, seal), FormatOf(c, seal).start, bodies)
    requires cut < |Frames(FormatOf(c, seal), bodies)|
    ensures
      var file := RawLog.MAGIC + Frames(FormatOf(c, seal), bodies)[..cut];
      m < |bodies| && RawLog.MAGIC <= file && BodiesOf(c, seal, file) == bodies[..m]
  {
    hide Fold, Scan, Frames;
    var f := FormatOf(c, seal);
    m := ScanOfCut(f, f.start, bodies, cut);
    var file := RawLog.MAGIC + Frames(f, bodies)[..cut];
    assert file[|RawLog.MAGIC|..] == Frames(f, bodies)[..cut];
    assert bodies[..|bodies|] == bodies;
  }

  lemma SegmentFormatIsChained(c: RawLog.Codec, key: RawLog.Key, previous: Bytes, first: nat)
    ensures Chained(SegmentFormat(c, key, previous, first), (st: RawLog.RawState) => st.previous,
                    (body: Bytes) => if c.decode(body).Some? then c.decode(body).value.previous else [])
  {
  }

  /**
    When a reading is whole: under collision-free digests the records read are the sealed ones if
    and only if the digest of the last one read is the terminal of the seal.
   */
  lemma {:induction false} ReadingIsWholeExactly(c: RawLog.Codec, seal: Seal, sealed: seq<Bytes>, read: seq<Bytes>)
    requires Fold(FormatOf(c, seal), FormatOf(c, seal).start, sealed).Some?
    requires Fold(FormatOf(c, seal), FormatOf(c, seal).start, sealed).value.previous == seal.terminal
    requires Fold(FormatOf(c, seal), FormatOf(c, seal).start, read).Some?
    requires CollisionFree(FormatOf(c, seal), (st: RawLog.RawState) => st.previous, sealed, read)
    ensures read == sealed <==> Fold(FormatOf(c, seal), FormatOf(c, seal).start, read).value.previous == seal.terminal
  {
    hide Fold, Chained, CollisionFree;
    var f := FormatOf(c, seal);
    SegmentFormatIsChained(c, KeyOfSeal(seal), seal.previousTerminal, seal.firstFrame);
    if Fold(f, f.start, read).value.previous == seal.terminal {
      LastDigestDeterminesBodies(
        f, (st: RawLog.RawState) => st.previous,
        (body: Bytes) => if c.decode(body).Some? then c.decode(body).value.previous else [], sealed, read);
    }
  }
}
