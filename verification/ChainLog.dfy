/**
  Append-only logs of length-prefixed, digest-sealed records.  The raw log, the segment
  manifest, the ownership ledger and the publication journal share this framing and differ in
  the bounds on a record body and in the step that accepts one.

  The digest and the record step are parameters, so every theorem holds for all of them.
 */
module ChainLog {
  import opened Wrappers

  newtype byte = x: int | 0 <= x < 256
  type Bytes = seq<byte>

  const LENGTH_SIZE: nat := 4
  const DIGEST_SIZE: nat := 32

  /** The digest a chain starts from. */
  const ZERO_DIGEST: Bytes :=
    [0, 0, 0, 0, 0, 0, 0, 0, 0, 0, 0, 0, 0, 0, 0, 0, 0, 0, 0, 0, 0, 0, 0, 0, 0, 0, 0, 0, 0, 0, 0, 0]

  // ----- the 4-byte big-endian length prefix -----

  function Pack(n: nat): (b: Bytes)
    requires n < 0x1_0000_0000
    ensures |b| == LENGTH_SIZE
  {
    [(n / 256 / 256 / 256) as byte, (n / 256 / 256 % 256) as byte, (n / 256 % 256) as byte, (n % 256) as byte]
  }

  function Unpack(b: Bytes): (n: nat)
    requires |b| == LENGTH_SIZE
    ensures n < 0x1_0000_0000
  {
    ((b[0] as int * 256 + b[1] as int) * 256 + b[2] as int) * 256 + b[3] as int
  }

  lemma {:induction false} UnpackOfPack(n: nat)
    requires n < 0x1_0000_0000
    ensures Unpack(Pack(n)) == n
  {
    var n1 := n / 256;
    var n2 := n1 / 256;
    assert n == n1 * 256 + n % 256 && n1 == n2 * 256 + n1 % 256 && n2 == n2 / 256 * 256 + n2 % 256;
    assert Pack(n)[0] as int == n2 / 256 && Pack(n)[1] as int == n2 % 256;
    assert Pack(n)[2] as int == n1 % 256 && Pack(n)[3] as int == n % 256;
  }

  lemma Digit(high: nat, d: byte)
    ensures (high * 256 + d as int) / 256 == high && (high * 256 + d as int) % 256 == d as int
  {
  }

  lemma {:induction false} PackOfUnpack(b: Bytes)
    requires |b| == LENGTH_SIZE
    ensures Pack(Unpack(b)) == b
  {
    var n2: nat := b[0] as int * 256 + b[1] as int;
    var n1: nat := n2 * 256 + b[2] as int;
    Digit(b[0] as int, b[1]);
    Digit(n2, b[2]);
    Digit(n1, b[3]);
    assert Pack(Unpack(b))[0] == b[0] && Pack(Unpack(b))[1] == b[1];
    assert Pack(Unpack(b))[2] == b[2] && Pack(Unpack(b))[3] == b[3];
  }

  // ----- formats -----

  /** One kind of log: its magic, body bounds, digest, initial state and record step. */
  datatype Format<!S> = Format(
    magic: Bytes,
    minBody: nat,
    maxBody: nat,
    hash: Bytes -> Bytes,
    start: S,
    accept: (S, Bytes) -> Option<S>)
  {
    ghost predicate Valid() {
      && maxBody < 0x1_0000_0000
      && forall body :: |hash(body)| == DIGEST_SIZE
    }

    predicate Admissible(body: Bytes) {
      minBody <= |body| <= maxBody
    }
  }

  /** The bytes of one record. */
  function Framed<S>(f: Format<S>, body: Bytes): (b: Bytes)
    requires |body| < 0x1_0000_0000
  {
    Pack(|body|) + body + f.hash(body)
  }

  ghost predicate AllAdmissible<S>(f: Format<S>, bodies: seq<Bytes>) {
    f.Valid() && forall i :: 0 <= i < |bodies| ==> f.Admissible(bodies[i])
  }

  ghost function Frames<S>(f: Format<S>, bodies: seq<Bytes>): Bytes
    requires AllAdmissible(f, bodies)
  {
    if bodies == [] then []
    else Framed(f, bodies[0]) + Frames(f, bodies[1..])
  }

  /** The state after accepting the bodies in order, if every one is accepted. */
  ghost function Fold<S>(f: Format<S>, st: S, bodies: seq<Bytes>): Option<S> {
    if bodies == [] then Some(st)
    else
      var next := f.accept(st, bodies[0]);
      if next.None? then None else Fold(f, next.value, bodies[1..])
  }

  /** A list of bodies that a strict reader accepts from a state. */
  ghost predicate Readable<S>(f: Format<S>, st: S, bodies: seq<Bytes>) {
    AllAdmissible(f, bodies) && Fold(f, st, bodies).Some?
  }

  // ----- reading -----

  datatype Reason =
    | CleanEof | BadMagic | PartialLength | BadLength | PartialBody | PartialDigest
    | DigestMismatch | RecordRejected

  datatype Step<S> = Stop(reason: Reason) | Good(size: nat, body: Bytes, state: S)

  /** Reads one record, or says why it cannot. */
  function ReadOne<S>(f: Format<S>, st: S, rest: Bytes): (step: Step<S>)
    ensures step.Good? ==> LENGTH_SIZE < step.size <= |rest|
  {
    if |rest| == 0 then Stop(CleanEof)
    else if |rest| < LENGTH_SIZE then Stop(PartialLength)
    else
      var n := Unpack(rest[..LENGTH_SIZE]);
      var end := LENGTH_SIZE + n;
      if n < f.minBody || n > f.maxBody then Stop(BadLength)
      else if |rest| < end then Stop(PartialBody)
      else if |rest| < end + DIGEST_SIZE then Stop(PartialDigest)
      else
        var body := rest[LENGTH_SIZE..end];
        if f.hash(body) != rest[end..end + DIGEST_SIZE] then Stop(DigestMismatch)
        else
          var next := f.accept(st, body);
          if next.None? then Stop(RecordRejected) else Good(end + DIGEST_SIZE, body, next.value)
  }

  datatype Scanned<S> = Scanned(bodies: seq<Bytes>, state: S, consumed: nat, reason: Reason)

  /** The tolerant scan: records are read until one cannot be. */
  ghost function Scan<S>(f: Format<S>, st: S, rest: Bytes): (r: Scanned<S>)
    ensures r.consumed <= |rest|
    decreases |rest|
  {
    var step := ReadOne(f, st, rest);
    if step.Stop? then Scanned([], st, 0, step.reason)
    else
      var tail := Scan(f, step.state, rest[step.size..]);
      Scanned([step.body] + tail.bodies, tail.state, step.size + tail.consumed, tail.reason)
  }

  /** The bytes a good step consumed are exactly the framed body. */
  lemma ReadOneIsFramed<S>(f: Format<S>, st: S, rest: Bytes)
    requires f.Valid() && ReadOne(f, st, rest).Good?
    ensures var step := ReadOne(f, st, rest);
      && f.Admissible(step.body)
      && rest[..step.size] == Framed(f, step.body)
      && f.accept(st, step.body) == Some(step.state)
  {
    hide Pack, Unpack;
    var step := ReadOne(f, st, rest);
    var prefix := rest[..LENGTH_SIZE];
    PackOfUnpack(prefix);
    var end := LENGTH_SIZE + |step.body|;
    assert rest[..step.size] == prefix + rest[LENGTH_SIZE..end] + rest[end..step.size];
  }

  /** A framed body at the front is read back, whatever follows it. */
  lemma ReadOneOfFramed<S>(f: Format<S>, st: S, body: Bytes, rest: Bytes)
    requires f.Valid() && f.Admissible(body)
    ensures
      var framed := Framed(f, body);
      && |framed| == LENGTH_SIZE + |body| + DIGEST_SIZE
      && ReadOne(f, st, framed + rest) ==
         if f.accept(st, body).None? then Stop(RecordRejected)
         else Good(|framed|, body, f.accept(st, body).value)
  {
    hide Pack, Unpack;
    UnpackOfPack(|body|);
    var framed := Framed(f, body);
    var all := framed + rest;
    var end := LENGTH_SIZE + |body|;
    assert all[..LENGTH_SIZE] == Pack(|body|);
    assert all[LENGTH_SIZE..end] == body;
    assert all[end..end + DIGEST_SIZE] == f.hash(body);
  }

  /** The scan reads a strictly valid prefix and stops cleanly exactly at the end of the bytes. */
  lemma {:induction false} ScanIsSound<S>(f: Format<S>, st: S, rest: Bytes)
    requires f.Valid()
    ensures var r := Scan(f, st, rest);
      && Readable(f, st, r.bodies)
      && Fold(f, st, r.bodies) == Some(r.state)
      && rest[..r.consumed] == Frames(f, r.bodies)
      && (r.reason == CleanEof <==> r.consumed == |rest|)
    decreases |rest|
  {
    hide ReadOne, Framed;
    var step := ReadOne(f, st, rest);
    if step.Good? {
      ReadOneIsFramed(f, st, rest);
      ScanIsSound(f, step.state, rest[step.size..]);
      var r := Scan(f, st, rest);
      var tail := Scan(f, step.state, rest[step.size..]);
      assert r.bodies[1..] == tail.bodies && r.bodies[0] == step.body;
      assert rest[..r.consumed] == rest[..step.size] + rest[step.size..][..tail.consumed];
    } else {
      StopReason(f, st, rest);
    }
  }

  lemma StopReason<S>(f: Format<S>, st: S, rest: Bytes)
    requires ReadOne(f, st, rest).Stop?
    ensures ReadOne(f, st, rest).reason == CleanEof <==> |rest| == 0
  {
  }

  /**
    The scan reads the longest strictly valid prefix: any readable list of records whose bytes
    begin the input is the beginning of the list the scan returns.
   */
  lemma {:induction false} ScanIsLongest<S>(f: Format<S>, st: S, rest: Bytes, bodies: seq<Bytes>)
    requires Readable(f, st, bodies) && Frames(f, bodies) <= rest
    ensures bodies <= Scan(f, st, rest).bodies
    ensures |Frames(f, bodies)| <= Scan(f, st, rest).consumed
    decreases |bodies|
  {
    hide ReadOne, Framed;
    if bodies != [] {
      var framed, tail := Framed(f, bodies[0]), Frames(f, bodies[1..]);
      ReadOneOfFramed(f, st, bodies[0], rest[|framed|..]);
      assert rest == framed + rest[|framed|..] by {
        assert framed == rest[..|framed|];
      }
      var next := f.accept(st, bodies[0]).value;
      assert tail <= rest[|framed|..];
      ScanIsLongest(f, next, rest[|framed|..], bodies[1..]);
      assert bodies == [bodies[0]] + bodies[1..];
    }
  }

  /** Reading what was written gives back the same records, cleanly. */
  lemma {:induction false} ScanOfFrames<S>(f: Format<S>, st: S, bodies: seq<Bytes>)
    requires Readable(f, st, bodies)
    ensures Scan(f, st, Frames(f, bodies)) ==
            Scanned(bodies, Fold(f, st, bodies).value, |Frames(f, bodies)|, CleanEof)
  {
    hide Scan, Fold;
    var bytes := Frames(f, bodies);
    ScanIsSound(f, st, bytes);
    ScanIsLongest(f, st, bytes, bodies);
    var r := Scan(f, st, bytes);
    FramesAreIncreasing(f, bodies, r.bodies);
  }

  lemma {:induction false} FramesAreIncreasing<S>(f: Format<S>, a: seq<Bytes>, b: seq<Bytes>)
    requires AllAdmissible(f, b) && a <= b
    ensures AllAdmissible(f, a)
    ensures Frames(f, a) <= Frames(f, b)
    ensures |Frames(f, a)| == |Frames(f, b)| ==> a == b
    decreases |a|
  {
    hide Framed;
    if a != [] {
      FramesAreIncreasing(f, a[1..], b[1..]);
      assert a == [a[0]] + a[1..] && b == [b[0]] + b[1..];
    } else if b != [] {
      ReadOneSize(f, b[0]);
    }
  }

  lemma ReadOneSize<S>(f: Format<S>, body: Bytes)
    requires f.Valid() && f.Admissible(body)
    ensures |Framed(f, body)| == LENGTH_SIZE + |body| + DIGEST_SIZE
  {
  }

  /**
    Cutting a valid log at any byte keeps exactly the whole records before the cut: the scan
    returns `bodies[..m]` where `m` is the number of records that end at or before the cut.
   */
  lemma {:induction false} ScanOfCut<S>(f: Format<S>, st: S, bodies: seq<Bytes>, cut: nat) returns (m: nat)
    requires Readable(f, st, bodies) && cut <= |Frames(f, bodies)|
    ensures m <= |bodies|
    ensures AllAdmissible(f, bodies[..m]) && |Frames(f, bodies[..m])| <= cut
    ensures forall k :: m < k <= |bodies| && AllAdmissible(f, bodies[..k]) ==>
              cut < |Frames(f, bodies[..k])|
    ensures
      var r := Scan(f, st, Frames(f, bodies)[..cut]);
      && r.bodies == bodies[..m]
      && Fold(f, st, bodies[..m]) == Some(r.state)
      && r.consumed == |Frames(f, bodies[..m])|
  {
    hide Scan, Fold, Frames;
    var bytes := Frames(f, bodies);
    var r := Scan(f, st, bytes[..cut]);
    ScanIsSound(f, st, bytes[..cut]);
    ScanIsLongest(f, st, bytes, r.bodies);
    ScanOfFrames(f, st, bodies);
    m := |r.bodies|;
    assert bodies[..m] == r.bodies;
    forall k | m < k <= |bodies| && AllAdmissible(f, bodies[..k])
      ensures cut < |Frames(f, bodies[..k])|
    {
      FramesAreIncreasing(f, bodies[..k], bodies);
      PrefixIsReadable(f, st, bodies, k);
      if |Frames(f, bodies[..k])| <= cut {
        ScanIsLongest(f, st, bytes[..cut], bodies[..k]);
      }
    }
  }

  lemma {:induction false} PrefixIsReadable<S>(f: Format<S>, st: S, bodies: seq<Bytes>, k: nat)
    requires Readable(f, st, bodies) && k <= |bodies|
    ensures Readable(f, st, bodies[..k])
    decreases k
  {
    if k > 0 {
      PrefixIsReadable(f, f.accept(st, bodies[0]).value, bodies[1..], k - 1);
      assert bodies[..k][1..] == bodies[1..][..k - 1];
      assert bodies[..k][0] == bodies[0];
    }
  }

  lemma {:induction false} FoldConcat<S>(f: Format<S>, st: S, a: seq<Bytes>, b: seq<Bytes>)
    requires Fold(f, st, a).Some?
    ensures Fold(f, st, a + b) == Fold(f, Fold(f, st, a).value, b)
    decreases |a|
  {
    if a == [] {
      assert a + b == b;
    } else {
      FoldConcat(f, f.accept(st, a[0]).value, a[1..], b);
      assert (a + b)[1..] == a[1..] + b;
    }
  }

  /** Folding a list is folding all but its last body and then accepting that one. */
  lemma FoldLast<S>(f: Format<S>, st: S, bodies: seq<Bytes>)
    requires bodies != [] && Fold(f, st, bodies).Some?
    ensures var last := |bodies| - 1;
      && Fold(f, st, bodies[..last]).Some?
      && Fold(f, st, bodies) == f.accept(Fold(f, st, bodies[..last]).value, bodies[last])
  {
    var last := |bodies| - 1;
    FoldPrefix(f, st, bodies, last);
    assert bodies == bodies[..last] + [bodies[last]];
    FoldConcat(f, st, bodies[..last], [bodies[last]]);
    assert [bodies[last]][1..] == [];
  }

  lemma {:induction false} FramesConcat<S>(f: Format<S>, a: seq<Bytes>, b: seq<Bytes>)
    requires AllAdmissible(f, a) && AllAdmissible(f, b)
    ensures AllAdmissible(f, a + b)
    ensures Frames(f, a + b) == Frames(f, a) + Frames(f, b)
    decreases |a|
  {
    if a == [] {
      assert a + b == b;
    } else {
      hide Framed;
      FramesConcat(f, a[1..], b);
      assert (a + b)[1..] == a[1..] + b;
    }
  }

  // ----- whole files -----

  datatype LogScan<S> = LogScan(records: nat, lastGoodOffset: nat, state: S, reason: Reason)

  /** The tolerant scan of a file, which reports nothing but the bad magic if that is wrong. */
  ghost function ScanFile<S>(f: Format<S>, file: Bytes): LogScan<S> {
    if !(f.magic <= file) then LogScan(0, 0, f.start, BadMagic)
    else
      var r := Scan(f, f.start, file[|f.magic|..]);
      LogScan(|r.bodies|, |f.magic| + r.consumed, r.state, r.reason)
  }

  /** The scanning loop over a byte cursor. */
  method ScanLog<S>(f: Format<S>, file: Bytes) returns (scan: LogScan<S>)
    ensures scan == ScanFile(f, file)
  {
    hide ReadOne;
    if !(f.magic <= file) {
      return LogScan(0, 0, f.start, BadMagic);
    }
    var records, offset, state := 0, |f.magic|, f.start;
    ghost var whole := Scan(f, f.start, file[|f.magic|..]);
    while true
      invariant |f.magic| <= offset <= |file|
      invariant var tail := Scan(f, state, file[offset..]);
        && |whole.bodies| == records + |tail.bodies|
        && |f.magic| + whole.consumed == offset + tail.consumed
        && whole.state == tail.state && whole.reason == tail.reason
      decreases |file| - offset
    {
      var step := ReadOne(f, state, file[offset..]);
      if step.Stop? {
        return LogScan(records, offset, state, step.reason);
      }
      assert file[offset..][step.size..] == file[offset + step.size..];
      records, offset, state := records + 1, offset + step.size, step.state;
    }
  }

  /** The first `n` bytes are the magic and records that a strict reader accepts. */
  ghost predicate ReadsStrictly<S>(f: Format<S>, file: Bytes, n: nat, bodies: seq<Bytes>) {
    n <= |file| && Readable(f, f.start, bodies) && file[..n] == f.magic + Frames(f, bodies)
  }

  /**
    The scan ends at the longest prefix a strict reader accepts: it reports that prefix's records
    and state, and every other strictly readable prefix is shorter and holds its first records.
   */
  ghost predicate IsLongest<S>(f: Format<S>, file: Bytes, scan: LogScan<S>, bodies: seq<Bytes>) {
    && ReadsStrictly(f, file, scan.lastGoodOffset, bodies)
    && scan.records == |bodies| && Fold(f, f.start, bodies) == Some(scan.state)
    && (scan.reason == CleanEof <==> scan.lastGoodOffset == |file|)
    && forall n: nat, others :: ReadsStrictly(f, file, n, others) ==> n <= scan.lastGoodOffset && others <= bodies
  }

  lemma {:induction false} ScanFileIsLongest<S>(f: Format<S>, file: Bytes)
    requires f.Valid() && f.magic <= file
    ensures IsLongest(f, file, ScanFile(f, file), Scan(f, f.start, file[|f.magic|..]).bodies)
  {
    hide Scan, Fold, Frames, AllAdmissible;
    var rest, scan := file[|f.magic|..], ScanFile(f, file);
    var r := Scan(f, f.start, rest);
    ScanIsSound(f, f.start, rest);
    assert file[..scan.lastGoodOffset] == f.magic + rest[..r.consumed];
    forall n: nat, others | ReadsStrictly(f, file, n, others)
      ensures n <= scan.lastGoodOffset && others <= r.bodies
    {
      assert file[..n][|f.magic|..] == Frames(f, others);
      assert rest[..n - |f.magic|] == file[..n][|f.magic|..];
      ScanIsLongest(f, f.start, rest, others);
    }
  }

  /** Every prefix that scans cleanly ends at or before the good offset of the whole file. */
  lemma {:induction false} CleanPrefixIsNoLonger<S>(f: Format<S>, file: Bytes, n: nat)
    requires f.Valid() && n <= |file| && ScanFile(f, file[..n]).reason == CleanEof
    ensures f.magic <= file && n <= ScanFile(f, file).lastGoodOffset
  {
    hide Scan, Fold, Frames, AllAdmissible;
    var bodies := Scan(f, f.start, file[..n][|f.magic|..]).bodies;
    ScanFileIsLongest(f, file[..n]);
    ScanFileIsLongest(f, file);
    assert file[..n][..n] == file[..n];
    assert ReadsStrictly(f, file, n, bodies);
  }

  /** Rescanning the good prefix of a file is clean and finds the same records. */
  lemma {:induction false} RescanIsClean<S>(f: Format<S>, file: Bytes)
    requires f.Valid() && f.magic <= file
    ensures var scan := ScanFile(f, file);
      && scan.lastGoodOffset <= |file|
      && ScanFile(f, file[..scan.lastGoodOffset]) == scan.(reason := CleanEof)
  {
    hide Scan, Fold, Frames;
    var rest := file[|f.magic|..];
    var r := Scan(f, f.start, rest);
    ScanIsSound(f, f.start, rest);
    ScanOfFrames(f, f.start, r.bodies);
    var scan := ScanFile(f, file);
    var good := file[..scan.lastGoodOffset];
    assert f.magic <= good;
    assert good[|f.magic|..] == rest[..r.consumed];
  }

  // ----- chained digests -----

  /** Each accepted body names the previous digest, and its own digest becomes the new one. */
  ghost predicate Chained<S(!new)>(f: Format<S>, head: S -> Bytes, named: Bytes -> Bytes) {
    forall st: S, body :: f.accept(st, body).Some? ==>
      named(body) == head(st) && head(f.accept(st, body).value) == f.hash(body)
  }

  /** Different bodies of the two lists have different digests, and none has the initial one. */
  ghost predicate CollisionFree<S>(f: Format<S>, head: S -> Bytes, a: seq<Bytes>, b: seq<Bytes>) {
    && (forall x, y :: x in a && y in b && f.hash(x) == f.hash(y) ==> x == y)
    && (forall x :: x in a || x in b ==> f.hash(x) != head(f.start))
  }

  lemma LastRecord<S(!new)>(f: Format<S>, head: S -> Bytes, named: Bytes -> Bytes, bodies: seq<Bytes>)
    requires Chained(f, head, named) && bodies != [] && Fold(f, f.start, bodies).Some?
    ensures var last := |bodies| - 1;
      && Fold(f, f.start, bodies[..last]).Some?
      && head(Fold(f, f.start, bodies).value) == f.hash(bodies[last])
      && head(Fold(f, f.start, bodies[..last]).value) == named(bodies[last])
  {
    FoldLast(f, f.start, bodies);
  }

  lemma {:induction false} FoldPrefix<S>(f: Format<S>, st: S, bodies: seq<Bytes>, k: nat)
    requires Fold(f, st, bodies).Some? && k <= |bodies|
    ensures Fold(f, st, bodies[..k]).Some?
    decreases k
  {
    if k > 0 {
      FoldPrefix(f, f.accept(st, bodies[0]).value, bodies[1..], k - 1);
      assert bodies[..k][1..] == bodies[1..][..k - 1];
    }
  }

  /** The last digest determines every record of the log. */
  lemma {:induction false} LastDigestDeterminesBodies<S(!new)>(f: Format<S>, head: S -> Bytes, named: Bytes -> Bytes, a: seq<Bytes>, b: seq<Bytes>)
    requires Chained(f, head, named) && CollisionFree(f, head, a, b)
    requires Fold(f, f.start, a).Some? && Fold(f, f.start, b).Some?
    requires head(Fold(f, f.start, a).value) == head(Fold(f, f.start, b).value)
    ensures a == b
    decreases |a|
  {
    hide Fold, Chained;
    if a == [] {
      EmptyFold(f);
      if b != [] {
        LastRecord(f, head, named, b);
        LastIsMember(b);
      }
    } else {
      LastRecord(f, head, named, a);
      LastIsMember(a);
      if b == [] {
        EmptyFold(f);
      } else {
        LastRecord(f, head, named, b);
        LastIsMember(b);
        var m, n := |a| - 1, |b| - 1;
        assert a == a[..m] + [a[m]] && b == b[..n] + [b[n]];
        LastDigestDeterminesBodies(f, head, named, a[..m], b[..n]);
      }
    }
  }

  lemma EmptyFold<S>(f: Format<S>)
    ensures Fold(f, f.start, []) == Some(f.start)
  {
  }

  lemma LastIsMember(bodies: seq<Bytes>)
    requires bodies != []
    ensures bodies[|bodies| - 1] in bodies
  {
  }

  /** Two cleanly scanned files with the same last digest are byte-for-byte equal. */
  lemma {:induction false} LastDigestDeterminesFile<S(!new)>(f: Format<S>, head: S -> Bytes, named: Bytes -> Bytes, file: Bytes, file': Bytes)
    requires f.Valid() && Chained(f, head, named)
    requires ScanFile(f, file).reason == CleanEof && ScanFile(f, file').reason == CleanEof
    requires head(ScanFile(f, file).state) == head(ScanFile(f, file').state)
    requires CollisionFree(f, head, Scan(f, f.start, file[|f.magic|..]).bodies,
                           Scan(f, f.start, file'[|f.magic|..]).bodies)
    ensures file == file'
  {
    hide Scan, Fold, Frames, Chained, CollisionFree;
    var rest, rest' := file[|f.magic|..], file'[|f.magic|..];
    var r, r' := Scan(f, f.start, rest), Scan(f, f.start, rest');
    ScanIsSound(f, f.start, rest);
    ScanIsSound(f, f.start, rest');
    LastDigestDeterminesBodies(f, head, named, r.bodies, r'.bodies);
    assert rest == rest[..r.consumed] && rest' == rest'[..r'.consumed];
    assert file == f.magic + rest && file' == f.magic + rest';
  }
}
