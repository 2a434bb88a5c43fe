/**
  The raw capture log: its writer, its tolerant scan, the strict replay iterator and crash
  recovery.  JSON encoding and SHA-256 are the functions of a `Codec`.
 */
module RawLog {
  import opened Wrappers
  import opened ChainLog

  datatype RecorderState = Pending | Durable | Failed

  /** A captured frame; `content` stands for the fields no rule of the log looks at. */
  datatype RawFrame = RawFrame(
    connectionEpoch: string,
    stream: string,
    frameIndex: nat,
    recorderState: RecorderState,
    content: Bytes)

  datatype Record = Record(frame: RawFrame, previous: Bytes)

  datatype Codec = Codec(hash: Bytes -> Bytes, encode: Record -> Bytes, decode: Bytes -> Option<Record>)
  {
    /** Digests have 32 bytes and decoding undoes encoding. */
    ghost predicate Valid() {
      && (forall body :: |hash(body)| == DIGEST_SIZE)
      && (forall r :: decode(encode(r)) == Some(r))
    }
  }

  type Key = (string, string)

  /** What the scan and the writer both carry from record to record. */
  datatype RawState = RawState(previous: Bytes, nextIndex: map<Key, nat>)

  const MAGIC: Bytes := [66, 78, 82, 65, 87, 0, 1, 10]
  const MAX_RECORD_BYTES: nat := 4 * 1024 * 1024

  function KeyOf(frame: RawFrame): Key {
    (frame.connectionEpoch, frame.stream)
  }

  function NextIndex(nextIndex: map<Key, nat>, key: Key): nat {
    if key in nextIndex then nextIndex[key] else 0
  }

  /** The per-record checks of `scan_raw_log`: chain and frame-index continuity. */
  function AcceptRaw(c: Codec, st: RawState, body: Bytes): Option<RawState> {
    var record := c.decode(body);
    if record.None? || record.value.previous != st.previous then None
    else
      var key := KeyOf(record.value.frame);
      var expected := NextIndex(st.nextIndex, key);
      if record.value.frame.frameIndex != expected then None
      else Some(RawState(c.hash(body), st.nextIndex[key := expected + 1]))
  }

  function RawFormat(c: Codec): (f: Format<RawState>) {
    Format(MAGIC, 0, MAX_RECORD_BYTES, c.hash, RawState(ZERO_DIGEST, map[]),
           (st, body) => AcceptRaw(c, st, body))
  }

  /** The index each stream is durable through. */
  function Watermarks(nextIndex: map<Key, nat>): map<Key, int> {
    map key | key in nextIndex && nextIndex[key] > 0 :: nextIndex[key] - 1
  }

  datatype RawLogScan = RawLogScan(
    fileSize: nat,
    records: nat,
    lastGoodOffset: nat,
    reason: Reason,
    lastRecordDigest: Bytes,
    streams: map<Key, int>)

  ghost function ScanRaw(c: Codec, file: Bytes): RawLogScan {
    var scan := ScanFile(RawFormat(c), file);
    RawLogScan(|file|, scan.records, scan.lastGoodOffset, scan.reason, scan.state.previous,
               Watermarks(scan.state.nextIndex))
  }

  /** How many of the records belong to a stream. */
  ghost function CountOf(c: Codec, bodies: seq<Bytes>, key: Key): nat {
    if bodies == [] then 0
    else
      var record := c.decode(bodies[|bodies| - 1]);
      CountOf(c, bodies[..|bodies| - 1], key)
      + (if record.Some? && KeyOf(record.value.frame) == key then 1 else 0)
  }

  /** What a raw scan reports, in terms of the records of a file. */
  ghost predicate Reports(c: Codec, r: RawLogScan, bodies: seq<Bytes>) {
    && r.records == |bodies|
    && r.lastRecordDigest == (if bodies == [] then ZERO_DIGEST else c.hash(bodies[|bodies| - 1]))
    && (forall key :: key in r.streams <==> CountOf(c, bodies, key) > 0)
    && (forall key :: key in r.streams ==> r.streams[key] == CountOf(c, bodies, key) - 1)
  }

  /**
    `scan_raw_log` reads the longest strictly valid prefix and reports its record count, the
    digest of its last record and, per stream, the index of the stream's last record.
   */
  method ScanRawLog(c: Codec, file: Bytes) returns (r: RawLogScan)
    ensures r == ScanRaw(c, file)
    ensures !(MAGIC <= file) ==> r.reason == BadMagic && r.lastGoodOffset == 0 && Reports(c, r, [])
    ensures c.Valid() && MAGIC <= file ==>
      && Reports(c, r, RawBodies(c, file))
      && ReadsStrictly(RawFormat(c), file, r.lastGoodOffset, RawBodies(c, file))
      && (r.reason == CleanEof <==> r.lastGoodOffset == |file|)
      && forall n: nat, others :: ReadsStrictly(RawFormat(c), file, n, others) ==>
           n <= r.lastGoodOffset && others <= RawBodies(c, file)
  {
    hide Scan, Fold, Frames, AllAdmissible, RawFormat;
    var scan := ScanLog(RawFormat(c), file);
    r := RawLogScan(|file|, scan.records, scan.lastGoodOffset, scan.reason, scan.state.previous,
                    Watermarks(scan.state.nextIndex));
    FormatFacts(c);
    if MAGIC <= file {
      if c.Valid() {
        ScanFileIsLongest(RawFormat(c), file);
        StateReports(c, RawBodies(c, file), scan.state, r);
      }
    } else {
      StateReports(c, [], scan.state, r);
    }
  }

  lemma FormatFacts(c: Codec)
    ensures RawFormat(c).magic == MAGIC && RawFormat(c).start == RawState(ZERO_DIGEST, map[])
    ensures c.Valid() ==> RawFormat(c).Valid()
    ensures Fold(RawFormat(c), RawFormat(c).start, []) == Some(RawFormat(c).start)
  {
  }

  /** The state counts the records of every stream and keeps the last digest. */
  lemma {:induction false} StateCounts(c: Codec, bodies: seq<Bytes>, st: RawState)
    requires Fold(RawFormat(c), RawFormat(c).start, bodies) == Some(st)
    ensures st.previous == (if bodies == [] then ZERO_DIGEST else c.hash(bodies[|bodies| - 1]))
    ensures forall key :: key in st.nextIndex ==> st.nextIndex[key] > 0
    ensures forall key :: NextIndex(st.nextIndex, key) == CountOf(c, bodies, key)
  {
    hide Fold;
    if bodies == [] {
      FormatFacts(c);
    } else {
      var last := |bodies| - 1;
      FoldLast(RawFormat(c), RawFormat(c).start, bodies);
      var before := Fold(RawFormat(c), RawFormat(c).start, bodies[..last]).value;
      StateCounts(c, bodies[..last], before);
      assert AcceptRaw(c, before, bodies[last]) == Some(st);
    }
  }

  lemma StateReports(c: Codec, bodies: seq<Bytes>, st: RawState, r: RawLogScan)
    requires Fold(RawFormat(c), RawFormat(c).start, bodies) == Some(st)
    requires r.records == |bodies| && r.lastRecordDigest == st.previous && r.streams == Watermarks(st.nextIndex)
    ensures Reports(c, r, bodies)
  {
    hide Fold, CountOf, RawFormat;
    StateCounts(c, bodies, st);
    assert forall key :: NextIndex(st.nextIndex, key) == CountOf(c, bodies, key);
  }

  lemma RawFormatIsChained(c: Codec)
    ensures Chained(RawFormat(c), (st: RawState) => st.previous,
                    (body: Bytes) => if c.decode(body).Some? then c.decode(body).value.previous else [])
  {
  }

  /** The bodies a scan of the file accepts. */
  ghost function RawBodies(c: Codec, file: Bytes): seq<Bytes>
    requires |file| >= |MAGIC|
  {
    Scan(RawFormat(c), RawFormat(c).start, file[|MAGIC|..]).bodies
  }

  /** Under collision-free digests the last digest determines the whole raw log. */
  lemma {:induction false} LastDigestDeterminesRawLog(c: Codec, file: Bytes, file': Bytes)
    requires c.Valid() && |file| >= |MAGIC| && |file'| >= |MAGIC|
    requires ScanRaw(c, file).reason == CleanEof && ScanRaw(c, file').reason == CleanEof
    requires ScanRaw(c, file).lastRecordDigest == ScanRaw(c, file').lastRecordDigest
    requires forall x, y :: x in RawBodies(c, file) && y in RawBodies(c, file') && c.hash(x) == c.hash(y) ==> x == y
    requires forall x :: x in RawBodies(c, file) || x in RawBodies(c, file') ==> c.hash(x) != ZERO_DIGEST
    ensures file == file'
  {
    hide Scan, Chained;
    RawFormatIsChained(c);
    LastDigestDeterminesFile(
      RawFormat(c), (st: RawState) => st.previous,
      (body: Bytes) => if c.decode(body).Some? then c.decode(body).value.previous else [],
      file, file');
  }

  // ----- writing -----

  datatype WriterError = Closed | Poisoned | NonContiguous | TooLarge | WriteFailed | SyncFailed

  datatype DurabilityAck = DurabilityAck(
    recordCount: nat,
    throughOffset: nat,
    lastDigest: Bytes,
    streams: map<Key, int>)

  datatype AppendReceipt = AppendReceipt(
    recordIndex: nat,
    endOffset: nat,
    digest: Bytes,
    ack: Option<DurabilityAck>)

  /** `_record_dict` writes every frame as pending, whatever its recorder state is. */
  function Stored(frame: RawFrame): RawFrame {
    frame.(recorderState := Pending)
  }

  class RawLogWriter {
    const codec: Codec
    const syncEvery: nat
    var sink: Bytes
    var sinceSync: nat
    var previousDigest: Bytes
    var nextIndex: map<Key, nat>
    var closed: bool
    var poisoned: bool
    var recordCount: nat
    var endOffset: nat
    var lastAck: Option<DurabilityAck>
    /** The frames and bodies of the completed appends. */
    ghost var frames: seq<RawFrame>
    ghost var bodies: seq<Bytes>
    /** The body of the append that failed, and the part of its record that reached the sink. */
    ghost var attempted: Bytes
    ghost var torn: Bytes

    /** The marks describe the file, and `sinceSync` counts the records after the last acknowledgement. */
    ghost predicate Consistent()
      reads this
    {
      && codec.Valid()
      && Written(codec, sink, bodies, torn, attempted)
      && Reached(codec, bodies) == Some(RawState(previousDigest, nextIndex))
      && recordCount == |bodies|
      && endOffset + |torn| == |sink|
      && (torn != [] ==> poisoned)
      && Holds(codec, frames, bodies)
      && syncEvery >= 1 && recordCount == sinceSync + (if lastAck.Some? then lastAck.value.recordCount else 0)
    }

    /** Moreover an open writer has fewer unacknowledged records than it syncs after. */
    ghost predicate Valid()
      reads this
    {
      Consistent() && (!closed && !poisoned ==> sinceSync < syncEvery)
    }

    constructor (codec: Codec, syncEvery: nat)
      requires codec.Valid() && syncEvery >= 1
      ensures Valid() && !closed && !poisoned && frames == [] && torn == []
      ensures this.codec == codec && this.syncEvery == syncEvery
      ensures nextIndex == map[] && previousDigest == ZERO_DIGEST && sinceSync == 0
    {
      this.codec, this.syncEvery := codec, syncEvery;
      sink, endOffset := MAGIC, |MAGIC|;
      sinceSync, recordCount, previousDigest, nextIndex := 0, 0, ZERO_DIGEST, map[];
      closed, poisoned, lastAck := false, false, None;
      frames, bodies, attempted, torn := [], [], [], [];
    }

    /** The first reason, in the order of the code, why an append fails. */
    function Refusal(frame: RawFrame, failedAfter: Option<nat>, syncSucceeds: bool): Option<WriterError>
      reads this
    {
      if closed then Some(Closed)
      else if poisoned then Some(Poisoned)
      else if frame.frameIndex != NextIndex(nextIndex, KeyOf(frame)) then Some(NonContiguous)
      else if |codec.encode(Record(Stored(frame), previousDigest))| > MAX_RECORD_BYTES then Some(TooLarge)
      else if failedAfter.Some? then Some(WriteFailed)
      else if sinceSync + 1 >= syncEvery && !syncSucceeds then Some(SyncFailed)
      else None
    }

    /**
      Appends one frame.  `failedAfter` is the number of bytes the sink took before it raised, or
      none when the write completed; `syncSucceeds` is the outcome of the file sync, if one is due.
     */
    method Append(frame: RawFrame, failedAfter: Option<nat>, syncSucceeds: bool)
      returns (r: Result<AppendReceipt, WriterError>)
      requires Valid()
      modifies this
      ensures Valid()
      ensures r.Ok? ==>
        && !old(closed) && !old(poisoned) && !poisoned
        && frame.frameIndex == NextIndex(old(nextIndex), KeyOf(frame))
        && frames == old(frames) + [frame]
        && r.value.recordIndex == old(recordCount)
        && r.value.endOffset == endOffset == |sink|
        && r.value.digest == previousDigest
        && old(sink) <= sink
        && (r.value.ack.Some? <==> sinceSync == 0)
        && (if r.value.ack.Some? then lastAck == r.value.ack else lastAck == old(lastAck) && sinceSync == old(sinceSync) + 1)
      ensures r.Err? && r.error in {Closed, Poisoned, NonContiguous, TooLarge} ==> unchanged(this)
      ensures r.Ok? <==> old(Refusal(frame, failedAfter, syncSucceeds)).None?
      ensures r.Err? ==> old(Refusal(frame, failedAfter, syncSucceeds)) == Some(r.error)
      ensures r == Err(WriteFailed) ==>
        poisoned && frames == old(frames) && endOffset == old(endOffset) && old(sink) <= sink
      ensures r == Err(SyncFailed) ==> poisoned && frames == old(frames) + [frame]
    {
      hide Fold, Frames, Framed, AcceptRaw, Written, Holds, RawFormat, Reached, Codec.Valid, Stored;
      if closed {
        return Err(Closed);
      }
      if poisoned {
        return Err(Poisoned);
      }
      var key := KeyOf(frame);
      var expected := NextIndex(nextIndex, key);
      if frame.frameIndex != expected {
        return Err(NonContiguous);
      }
      var body := codec.encode(Record(Stored(frame), previousDigest));
      if |body| > MAX_RECORD_BYTES {
        return Err(TooLarge);
      }
      var recordIndex := recordCount;
      var written := WriteRecord(frame, body, failedAfter);
      if !written {
        return Err(WriteFailed);
      }
      var ack := None;
      if sinceSync >= syncEvery {
        var synced := Sync(syncSucceeds);
        if synced.Err? {
          return Err(SyncFailed);
        }
        ack := Some(synced.value);
      }
      return Ok(AppendReceipt(recordIndex, endOffset, previousDigest, ack));
    }

    /** Writes one encoded record; a failed write poisons the writer and may leave part of it. */
    method WriteRecord(frame: RawFrame, body: Bytes, failedAfter: Option<nat>) returns (ok: bool)
      requires Consistent() && !closed && !poisoned
      requires frame.frameIndex == NextIndex(nextIndex, KeyOf(frame))
      requires body == codec.encode(Record(Stored(frame), previousDigest)) && |body| <= MAX_RECORD_BYTES
      modifies this
      ensures Consistent() && closed == old(closed) && old(sink) <= sink
      ensures ok <==> failedAfter.None?
      ensures ok ==>
        && !poisoned && frames == old(frames) + [frame] && torn == []
        && recordCount == old(recordCount) + 1 && previousDigest == codec.hash(body)
        && sinceSync == old(sinceSync) + 1
      ensures !ok ==> poisoned && frames == old(frames) && endOffset == old(endOffset)
      ensures lastAck == old(lastAck)
    {
      hide Fold, Frames, Framed, AcceptRaw, Written, Holds, RawFormat, Reached, Codec.Valid, Stored;
      EncodedSize(codec, body);
      var encoded := Framed(RawFormat(codec), body);
      if failedAfter.Some? {
        TearRecord(frame, body, if failedAfter.value < |encoded| then failedAfter.value else |encoded| - 1);
        return false;
      }
      CompleteRecord(frame, body);
      return true;
    }

    /** A write that fails after `count` bytes of the record poisons the writer. */
    method TearRecord(frame: RawFrame, body: Bytes, count: nat)
      requires Consistent() && !closed && !poisoned
      requires frame.frameIndex == NextIndex(nextIndex, KeyOf(frame))
      requires body == codec.encode(Record(Stored(frame), previousDigest)) && |body| <= MAX_RECORD_BYTES
      requires count < |Framed(RawFormat(codec), body)|
      modifies this`sink, this`poisoned, this`attempted, this`torn
      ensures Consistent() && poisoned && old(sink) <= sink
    {
      hide Fold, Frames, Framed, AcceptRaw, Written, Holds, RawFormat, Reached, Codec.Valid, Stored;
      AppendKeepsWritten(codec, sink, frames, bodies, attempted,
                         RawState(previousDigest, nextIndex), frame, body);
      var encoded := Framed(RawFormat(codec), body);
      sink := sink + encoded[..count];
      poisoned := true;
      attempted, torn := body, encoded[..count];
    }

    /** The record is in the file and every mark moves past it. */
    method CompleteRecord(frame: RawFrame, body: Bytes)
      requires Consistent() && !closed && !poisoned
      requires frame.frameIndex == NextIndex(nextIndex, KeyOf(frame))
      requires body == codec.encode(Record(Stored(frame), previousDigest)) && |body| <= MAX_RECORD_BYTES
      modifies this`sink, this`previousDigest, this`nextIndex, this`recordCount, this`endOffset, this`sinceSync, this`bodies, this`frames
      ensures Consistent() && old(sink) <= sink
      ensures frames == old(frames) + [frame] && torn == []
      ensures recordCount == old(recordCount) + 1 && previousDigest == codec.hash(body)
      ensures sinceSync == old(sinceSync) + 1
    {
      hide Fold, Frames, Framed, AcceptRaw, Written, Holds, RawFormat, Reached, Codec.Valid, Stored;
      AppendKeepsWritten(codec, sink, frames, bodies, attempted,
                         RawState(previousDigest, nextIndex), frame, body);
      var encoded := Framed(RawFormat(codec), body);
      var key := KeyOf(frame);
      nextIndex := nextIndex[key := NextIndex(nextIndex, key) + 1];
      sink := sink + encoded;
      previousDigest := codec.hash(body);
      recordCount := recordCount + 1;
      endOffset := endOffset + |encoded|;
      sinceSync := sinceSync + 1;
      bodies, frames := bodies + [body], frames + [frame];
    }

    method Sync(succeeds: bool) returns (r: Result<DurabilityAck, WriterError>)
      requires Consistent()
      modifies this`sinceSync, this`lastAck, this`poisoned
      ensures Consistent() && (old(Valid()) || !closed ==> Valid())
      ensures r.Ok? <==> !closed && !old(poisoned) && succeeds
      ensures r.Ok? ==>
        && r.value == DurabilityAck(recordCount, endOffset, previousDigest, Watermarks(nextIndex))
        && lastAck == Some(r.value) && !poisoned
      ensures r.Err? && !closed ==> poisoned
      ensures r.Err? ==>
        && lastAck == old(lastAck)
        && r.error == (if closed then Closed else if old(poisoned) then Poisoned else SyncFailed)
      ensures r.Ok? ==> sinceSync == 0
    {
      if closed {
        return Err(Closed);
      }
      if poisoned {
        return Err(Poisoned);
      }
      if !succeeds {
        poisoned := true;
        return Err(SyncFailed);
      }
      sinceSync := 0;
      var ack := DurabilityAck(recordCount, endOffset, previousDigest, Watermarks(nextIndex));
      lastAck := Some(ack);
      return Ok(ack);
    }

    /** A failing final sync is raised to the caller, but the writer is closed all the same. */
    method Close(succeeds: bool) returns (r: Result<Option<DurabilityAck>, WriterError>)
      requires Valid()
      modifies this
      ensures Valid() && closed
      ensures sink == old(sink) && frames == old(frames) && torn == old(torn)
      ensures r.Err? <==> !old(closed) && !old(poisoned) && !succeeds
      ensures r.Err? ==> r.error == SyncFailed && poisoned && lastAck == old(lastAck)
      ensures r.Ok? ==> r.value == lastAck && poisoned == old(poisoned)
      ensures r.Ok? && (old(closed) || old(poisoned)) ==> lastAck == old(lastAck)
      ensures r.Ok? && !old(closed) && !old(poisoned) ==>
        lastAck == Some(DurabilityAck(recordCount, endOffset, previousDigest, Watermarks(nextIndex)))
    {
      if !closed {
        if !poisoned {
          var synced := Sync(succeeds);
          closed := true;
          if synced.Err? {
            return Err(synced.error);
          }
        }
        closed := true;
      }
      return Ok(lastAck);
    }

    /**
      Whatever was appended, and wherever a failed append was torn, a scan of the file finds
      exactly the completed records with the writer's own count, offset, digest and watermarks,
      and ends cleanly exactly when nothing was torn.
     */
    lemma {:induction false} ScansAsWritten()
      requires Valid()
      ensures
        var scan := ScanRaw(codec, sink);
        && scan.records == recordCount
        && scan.lastGoodOffset == endOffset
        && scan.lastRecordDigest == previousDigest
        && scan.streams == Watermarks(nextIndex)
        && (scan.reason == CleanEof <==> torn == [])
      ensures |sink| >= |MAGIC| && RawBodies(codec, sink) == bodies
    {
      hide Scan, Fold, Frames, Framed, AcceptRaw;
      var f := RawFormat(codec);
      var rest := sink[|MAGIC|..];
      assert rest == Frames(f, bodies) + torn;
      assert f.magic <= sink;
      if torn == [] {
        assert rest == Frames(f, bodies);
        ScanOfFrames(f, f.start, bodies);
      } else {
        TornTailIsDropped(f, bodies, attempted, torn);
        ScanIsSound(f, f.start, rest);
      }
    }

    /** Reading back gives each frame as stored, so the frame itself exactly when it was pending. */
    lemma {:induction false} ReadsBack(i: nat)
      requires Valid() && i < |frames|
      ensures |sink| >= |MAGIC| && RawBodies(codec, sink) == bodies && |bodies| == |frames|
      ensures codec.decode(bodies[i]).Some?
      ensures codec.decode(bodies[i]).value.frame == Stored(frames[i])
      ensures codec.decode(bodies[i]).value.frame == frames[i] <==> frames[i].recorderState == Pending
    {
      hide Scan, Fold, Frames;
      ScansAsWritten();
    }
  }

  /** Such a frame exists: any frame 0 that is not pending and fits reads back changed. */
  method AppendNotPending(codec: Codec, frame: RawFrame) returns (w: RawLogWriter, r: Result<AppendReceipt, WriterError>)
    requires codec.Valid() && frame.frameIndex == 0 && frame.recorderState != Pending
    requires |codec.encode(Record(Stored(frame), ZERO_DIGEST))| <= MAX_RECORD_BYTES
    ensures r.Ok? && w.Valid() && w.codec == codec && w.frames == [frame] && |w.bodies| == 1
    ensures codec.decode(w.bodies[0]).Some? && codec.decode(w.bodies[0]).value.frame != frame
  {
    hide Written, Holds, Reached, Codec.Valid, Stored;
    w := new RawLogWriter(codec, 64);
    r := w.Append(frame, None, true);
    assert w.frames == [frame];
    w.ReadsBack(0);
  }

  /** The sink holds the magic, the framed bodies and part of one more readable record. */
  ghost predicate Written(c: Codec, sink: Bytes, bodies: seq<Bytes>, torn: Bytes, attempted: Bytes) {
    var f := RawFormat(c);
    && Readable(f, f.start, bodies)
    && sink == MAGIC + Frames(f, bodies) + torn
    && (torn != [] ==>
          && f.Admissible(attempted)
          && Readable(f, f.start, bodies + [attempted])
          && torn < Framed(f, attempted))
  }

  ghost predicate Holds(c: Codec, frames: seq<RawFrame>, bodies: seq<Bytes>) {
    |frames| == |bodies| && forall i :: 0 <= i < |bodies| ==>
      c.decode(bodies[i]).Some? && c.decode(bodies[i]).value.frame == Stored(frames[i])
  }

  /** The state of the log after the bodies. */
  ghost function Reached(c: Codec, bodies: seq<Bytes>): Option<RawState> {
    Fold(RawFormat(c), RawFormat(c).start, bodies)
  }

  lemma AppendKeepsWritten(c: Codec, sink: Bytes, frames: seq<RawFrame>, bodies: seq<Bytes>, attempted: Bytes,
                           st: RawState, frame: RawFrame, body: Bytes)
    requires c.Valid() && |body| <= MAX_RECORD_BYTES
    requires Written(c, sink, bodies, [], attempted) && Holds(c, frames, bodies)
    requires Reached(c, bodies) == Some(st)
    requires body == c.encode(Record(Stored(frame), st.previous))
    requires frame.frameIndex == NextIndex(st.nextIndex, KeyOf(frame))
    ensures |Framed(RawFormat(c), body)| == LENGTH_SIZE + |body| + DIGEST_SIZE
    ensures Written(c, sink + Framed(RawFormat(c), body), bodies + [body], [], attempted)
    ensures Holds(c, frames + [frame], bodies + [body])
    ensures Reached(c, bodies + [body]) ==
            Some(RawState(c.hash(body), st.nextIndex[KeyOf(frame) := frame.frameIndex + 1]))
    ensures forall k :: 0 <= k < |Framed(RawFormat(c), body)| ==>
              Written(c, sink + Framed(RawFormat(c), body)[..k], bodies, Framed(RawFormat(c), body)[..k], body)
  {
    hide Fold, Frames, Framed, AcceptRaw;
    AppendIsReadable(c, bodies, st, frame, body);
    EncodedSize(c, body);
    var f := RawFormat(c);
    var framed := Framed(f, body);
    assert MAGIC + Frames(f, bodies) + [] == MAGIC + Frames(f, bodies);
    assert sink + framed == MAGIC + (Frames(f, bodies) + framed) + [];
  }

  lemma EncodedSize(c: Codec, body: Bytes)
    requires c.Valid() && |body| <= MAX_RECORD_BYTES
    ensures |Framed(RawFormat(c), body)| == LENGTH_SIZE + |body| + DIGEST_SIZE
  {
  }

  /** Appending a freshly encoded frame at its expected index extends the readable log. */
  lemma AppendIsReadable(c: Codec, bodies: seq<Bytes>, st: RawState, frame: RawFrame, body: Bytes)
    requires c.Valid() && |body| <= MAX_RECORD_BYTES
    requires Readable(RawFormat(c), RawFormat(c).start, bodies)
    requires Fold(RawFormat(c), RawFormat(c).start, bodies) == Some(st)
    requires body == c.encode(Record(Stored(frame), st.previous))
    requires frame.frameIndex == NextIndex(st.nextIndex, KeyOf(frame))
    ensures c.decode(body) == Some(Record(Stored(frame), st.previous))
    ensures Readable(RawFormat(c), RawFormat(c).start, bodies + [body])
    ensures Fold(RawFormat(c), RawFormat(c).start, bodies + [body]) ==
            Some(RawState(c.hash(body), st.nextIndex[KeyOf(frame) := frame.frameIndex + 1]))
    ensures Frames(RawFormat(c), bodies + [body]) == Frames(RawFormat(c), bodies) + Framed(RawFormat(c), body)
  {
    hide Framed;
    var f := RawFormat(c);
    assert f.Admissible(body);
    FoldConcat(f, f.start, bodies, [body]);
    assert [body][1..] == [];
    FramesConcat(f, bodies, [body]);
    OneFrame(f, body);
  }

  lemma OneFrame(f: Format<RawState>, body: Bytes)
    requires f.Valid() && f.Admissible(body)
    ensures Frames(f, [body]) == Framed(f, body)
  {
    assert [body][1..] == [];
    assert Framed(f, body) + [] == Framed(f, body);
  }

  /** A torn record is left out and every record before it is kept. */
  lemma {:induction false} TornTailIsDropped(f: Format<RawState>, bodies: seq<Bytes>, attempted: Bytes, torn: Bytes)
    requires Readable(f, f.start, bodies) && Readable(f, f.start, bodies + [attempted])
    requires f.Admissible(attempted) && torn < Framed(f, attempted)
    ensures
      var r := Scan(f, f.start, Frames(f, bodies) + torn);
      && r.bodies == bodies
      && Some(r.state) == Fold(f, f.start, bodies)
      && r.consumed == |Frames(f, bodies)|
  {
    hide Scan, Fold, Framed;
    var more := bodies + [attempted];
    FramesConcat(f, bodies, [attempted]);
    OneFrame(f, attempted);
    var cut := |Frames(f, bodies)| + |torn|;
    var m := ScanOfCut(f, f.start, more, cut);
    assert Frames(f, more)[..cut] == Frames(f, bodies) + torn;
    assert more[..|bodies|] == bodies && more[..|more|] == more;
    assert m == |bodies|;
  }

  // ----- strict replay -----

  datatype Envelope = Envelope(
    recordIndex: nat,
    startOffset: nat,
    endOffset: nat,
    digest: Bytes,
    frame: RawFrame)

  datatype ReplayError = CorruptLog(reason: Reason) | ChangedDuringReplay

  ghost predicate EnvelopeAt(c: Codec, es: seq<Envelope>, bodies: seq<Bytes>, i: int)
    requires 0 <= i < |es| == |bodies|
  {
    && es[i].recordIndex == i
    && es[i].digest == c.hash(bodies[i])
    && c.decode(bodies[i]).Some? && es[i].frame == c.decode(bodies[i]).value.frame
    && es[i].startOffset == (if i == 0 then |MAGIC| else es[i - 1].endOffset)
  }

  /** The envelopes list the bodies in order with contiguous offsets. */
  ghost predicate Covers(c: Codec, es: seq<Envelope>, bodies: seq<Bytes>, end: nat) {
    && |es| == |bodies|
    && (forall i :: 0 <= i < |es| ==> EnvelopeAt(c, es, bodies, i))
    && end == (if es == [] then |MAGIC| else es[|es| - 1].endOffset)
  }

  /**
    `iter_raw_records`: after a clean scan the second, strict reading cannot fail, and it yields
    every scanned record once with contiguous offsets up to the last good one.
   */
  method IterRawRecords(c: Codec, file: Bytes) returns (r: Result<seq<Envelope>, ReplayError>)
    requires c.Valid()
    ensures r.Ok? <==> ScanRaw(c, file).reason == CleanEof
    ensures r.Err? ==> r.error == CorruptLog(ScanRaw(c, file).reason)
    ensures r.Ok? ==>
      |file| >= |MAGIC| && Covers(c, r.value, RawBodies(c, file), ScanRaw(c, file).lastGoodOffset)
  {
    hide ReadOne, Fold, Frames, Scan, Covers;
    var scan := ScanRawLog(c, file);
    if scan.reason != CleanEof {
      return Err(CorruptLog(scan.reason));
    }
    var f := RawFormat(c);
    ghost var whole := Scan(f, f.start, file[|MAGIC|..]);
    ghost var done: seq<Bytes> := [];
    var envelopes, offset, state := [], |MAGIC|, f.start;
    NothingCovered(c);
    while offset < scan.lastGoodOffset
      invariant |MAGIC| <= offset <= |file|
      invariant Covers(c, envelopes, done, offset)
      invariant var tail := Scan(f, state, file[offset..]);
        && whole.bodies == done + tail.bodies
        && scan.lastGoodOffset == offset + tail.consumed
      decreases |file| - offset
    {
      OneStep(f, state, file[offset..]);
      var step := ReadOne(f, state, file[offset..]);
      if step.Stop? {
        assert false;
        return Err(ChangedDuringReplay);
      }
      DecodesWhenGood(c, state, file[offset..]);
      assert file[offset..][step.size..] == file[offset + step.size..];
      var record := c.decode(step.body).value;
      CoversOneMore(c, envelopes, done, offset, step.size, step.body);
      envelopes := envelopes +
        [Envelope(|envelopes|, offset, offset + step.size, c.hash(step.body), record.frame)];
      done := done + [step.body];
      offset, state := offset + step.size, step.state;
    }
    NothingLeft(f, state, file[offset..]);
    assert done == whole.bodies;
    return Ok(envelopes);
  }

  lemma NothingCovered(c: Codec)
    ensures Covers(c, [], [], |MAGIC|)
  {
  }

  /** The scan is its first step followed by the scan of the rest. */
  lemma OneStep(f: Format<RawState>, st: RawState, rest: Bytes)
    ensures
      var step := ReadOne(f, st, rest);
      var r := Scan(f, st, rest);
      && (step.Stop? ==> r.consumed == 0)
      && (step.Good? ==>
            var tail := Scan(f, step.state, rest[step.size..]);
            r.bodies == [step.body] + tail.bodies && r.consumed == step.size + tail.consumed)
  {
    hide ReadOne;
  }

  lemma DecodesWhenGood(c: Codec, st: RawState, rest: Bytes)
    requires c.Valid() && ReadOne(RawFormat(c), st, rest).Good?
    ensures c.decode(ReadOne(RawFormat(c), st, rest).body).Some?
  {
    hide ReadOne;
    ReadOneIsFramed(RawFormat(c), st, rest);
  }

  lemma CoversOneMore(c: Codec, es: seq<Envelope>, bodies: seq<Bytes>, offset: nat, size: nat, body: Bytes)
    requires Covers(c, es, bodies, offset) && c.decode(body).Some?
    ensures Covers(c, es + [Envelope(|es|, offset, offset + size, c.hash(body), c.decode(body).value.frame)],
                   bodies + [body], offset + size)
  {
    var e := Envelope(|es|, offset, offset + size, c.hash(body), c.decode(body).value.frame);
    var es', bodies' := es + [e], bodies + [body];
    forall i | 0 <= i < |es'| ensures EnvelopeAt(c, es', bodies', i) {
      if i < |es| {
        assert EnvelopeAt(c, es, bodies, i);
      }
    }
  }

  lemma NothingLeft(f: Format<RawState>, st: RawState, rest: Bytes)
    requires Scan(f, st, rest).consumed == 0
    ensures Scan(f, st, rest).bodies == []
  {
    hide ReadOne;
  }

  // ----- recovery -----

  datatype RecoverError = AlreadyClean | NoRecoverablePrefix | FailedVerification

  datatype Recovery = Recovery(
    destination: Bytes,
    sourceFileSize: nat,
    copiedBytes: nat,
    excludedTailBytes: nat,
    recoveredRecords: nat,
    lastDigest: Bytes)

  const COPY_CHUNK: nat := 1024 * 1024

  /**
    `recover_raw_log_prefix`: the copied prefix is clean with the source's records and digest, so
    the closing verification never fails, and nothing readable is left behind.
   */
  method RecoverRawLogPrefix(c: Codec, source: Bytes) returns (r: Result<Recovery, RecoverError>)
    requires c.Valid()
    ensures r == Err(AlreadyClean) <==> ScanRaw(c, source).reason == CleanEof
    ensures r == Err(NoRecoverablePrefix) <==> ScanRaw(c, source).reason == BadMagic
    ensures r != Err(FailedVerification)
    ensures r.Ok? ==>
      && r.value.destination == source[..ScanRaw(c, source).lastGoodOffset]
      && ScanRaw(c, r.value.destination).reason == CleanEof
      && r.value.recoveredRecords == ScanRaw(c, source).records
      && r.value.lastDigest == ScanRaw(c, source).lastRecordDigest
      && r.value.copiedBytes + r.value.excludedTailBytes == |source|
  {
    hide Scan, Fold, Frames;
    var scan := ScanRawLog(c, source);
    BadMagicHasNoPrefix(c, source);
    if scan.reason == CleanEof {
      return Err(AlreadyClean);
    }
    if scan.lastGoodOffset < |MAGIC| {
      return Err(NoRecoverablePrefix);
    }
    RescanIsClean(RawFormat(c), source);
    var destination, copied, remaining := [], 0, scan.lastGoodOffset;
    while remaining > 0
      invariant 0 <= copied && 0 <= remaining && copied + remaining == scan.lastGoodOffset
      invariant destination == source[..copied]
    {
      var size := if COPY_CHUNK < remaining then COPY_CHUNK else remaining;
      destination := destination + source[copied..copied + size];
      copied, remaining := copied + size, remaining - size;
    }
    var recovered := ScanRawLog(c, destination);
    if recovered.reason != CleanEof || recovered.records != scan.records
       || recovered.lastRecordDigest != scan.lastRecordDigest {
      return Err(FailedVerification);
    }
    return Ok(Recovery(destination, scan.fileSize, copied, scan.fileSize - copied,
                       recovered.records, recovered.lastRecordDigest));
  }

  lemma BadMagicHasNoPrefix(c: Codec, file: Bytes)
    requires c.Valid()
    ensures ScanRaw(c, file).lastGoodOffset < |MAGIC| <==> ScanRaw(c, file).reason == BadMagic
    ensures ScanRaw(c, file).lastGoodOffset <= |file|
    ensures ScanRaw(c, file).reason != BadMagic ==> MAGIC <= file
  {
    hide Fold, Frames, ReadOne;
    if MAGIC <= file {
      ScanNeverSaysBadMagic(RawFormat(c), RawFormat(c).start, file[|MAGIC|..]);
    }
  }

  lemma {:induction false} ScanNeverSaysBadMagic(f: Format<RawState>, st: RawState, rest: Bytes)
    ensures Scan(f, st, rest).reason != BadMagic
    decreases |rest|
  {
    var step := ReadOne(f, st, rest);
    if step.Good? {
      ScanNeverSaysBadMagic(f, step.state, rest[step.size..]);
    }
  }

  /** Any other strictly readable prefix of the source is no longer than the recovered one. */
  lemma {:induction false} RecoveryIsLongest(c: Codec, source: Bytes, bodies: seq<Bytes>)
    requires c.Valid() && Readable(RawFormat(c), RawFormat(c).start, bodies)
    requires MAGIC + Frames(RawFormat(c), bodies) <= source
    ensures |MAGIC + Frames(RawFormat(c), bodies)| <= ScanRaw(c, source).lastGoodOffset
    ensures bodies <= RawBodies(c, source)
  {
    hide Scan, Fold, Frames;
    var f := RawFormat(c);
    var rest := source[|MAGIC|..];
    assert MAGIC <= source && Frames(f, bodies) <= rest;
    ScanIsLongest(f, f.start, rest, bodies);
  }
}
