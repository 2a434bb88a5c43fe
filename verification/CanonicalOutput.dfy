/**
  The publication journal of one symbol and stream: observations under the current owner, and
  ownership changes fenced by a token.
 */
module CanonicalOutput {
  import opened Wrappers
  import opened Streams
  import opened ChainLog

  datatype Owner = Owner(generation: string, epoch: string, token: int, last: int)
  {
    predicate Valid() {
      !Blank(generation) && !Blank(epoch) && token > 0 && last >= 0
    }
  }

  /** `not text.strip()` for the ASCII white space that identifiers can hold. */
  predicate Blank(text: string) {
    forall i :: 0 <= i < |text| ==> text[i] in {' ', '\t', '\n', '\r'}
  }

  datatype Observation = Observation(symbol: string, kind: StreamKind, epoch: string, first: int, final: int)

  datatype Action = Initialized | Observed | OwnershipChanged

  datatype Record = Record(
    recordIndex: nat,
    previous: Bytes,
    symbol: string,
    kind: StreamKind,
    action: Action,
    owner: Owner,
    observation: Option<Observation>,
    activationDigest: Option<Bytes>)

  datatype Codec = Codec(hash: Bytes -> Bytes, decode: Bytes -> Option<Record>)

  datatype Journal = Journal(
    records: nat,
    previous: Bytes,
    symbol: Option<string>,
    kind: Option<StreamKind>,
    owner: Option<Owner>,
    observations: nat,
    changes: nat)

  const MAGIC: Bytes := [66, 78, 80, 85, 66, 0, 1, 10]
  const MAX_RECORD_BYTES: nat := 256 * 1024

  const EMPTY := Journal(0, ZERO_DIGEST, None, None, None, 0, 0)

  /** `_validate_observation`: the next sequence is covered, by the current owner. */
  predicate ObservationOk(r: Record, current: Owner) {
    && r.observation.Some?
    && var value := r.observation.value;
    var expected := current.last + 1;
    && (match r.kind
        case Depth => value.first <= expected <= value.final
        case Trade => value.first == expected && value.final == expected)
    && value.symbol == r.symbol && value.kind == r.kind
    && value.epoch == current.epoch
    && r.owner == Owner(current.generation, current.epoch, current.token, value.final)
    && r.activationDigest.None?
  }

  predicate ChangeOk(r: Record, current: Owner) {
    && r.activationDigest.Some? && |r.activationDigest.value| == DIGEST_SIZE
    && r.observation.None?
    && r.owner.generation != current.generation
    && r.owner.epoch != current.epoch
    && r.owner.token == current.token + 1
    && r.owner.last == current.last
  }

  /** `_validate_record` and the loop body around it. */
  function Accept(c: Codec, st: Journal, body: Bytes): Option<Journal> {
    var decoded := c.decode(body);
    if decoded.None? then None
    else
      var r := decoded.value;
      if r.recordIndex != st.records || r.previous != st.previous
         || r.symbol !in {"BTCUSDT", "ETHUSDT"}
         || (st.symbol.Some? && r.symbol != st.symbol.value)
         || (st.kind.Some? && r.kind != st.kind.value)
         || !r.owner.Valid()
      then None
      else
        var next := st.(records := st.records + 1, previous := c.hash(body),
                        symbol := Some(r.symbol), kind := Some(r.kind), owner := Some(r.owner));
        match r.action
        case Initialized =>
          if st.records != 0 || st.owner.Some? || r.observation.Some? || r.activationDigest.Some?
          then None else Some(next)
        case Observed =>
          if st.owner.None? || !ObservationOk(r, st.owner.value) then None
          else Some(next.(observations := st.observations + 1))
        case OwnershipChanged =>
          if st.owner.None? || !ChangeOk(r, st.owner.value) then None
          else Some(next.(changes := st.changes + 1))
  }

  function JournalFormat(c: Codec): Format<Journal> {
    Format(MAGIC, 1, MAX_RECORD_BYTES, c.hash, EMPTY, (st: Journal, body: Bytes) => Accept(c, st, body))
  }

  /** The records of a journal file that the scan accepts. */
  ghost function JournalBodies(c: Codec, file: Bytes): seq<Bytes>
    requires |file| >= |MAGIC|
  {
    Scan(JournalFormat(c), EMPTY, file[|MAGIC|..]).bodies
  }

  /**
    `scan_canonical_output` reads the longest strictly valid prefix, and what it reports is fenced
    by the initial owner and the publications of exactly that prefix.
   */
  method ScanCanonicalOutput(c: Codec, file: Bytes) returns (scan: LogScan<Journal>)
    ensures scan == ScanFile(JournalFormat(c), file)
    ensures !(MAGIC <= file) ==> scan == LogScan(0, 0, EMPTY, BadMagic)
    ensures JournalFormat(c).Valid() && MAGIC <= file ==>
      var bodies := JournalBodies(c, file);
      && IsLongest(JournalFormat(c), file, scan, bodies)
      && After(c, bodies).Some?
      && (bodies != [] ==> Fenced(scan.state, InitialOwner(c, bodies), Publications(c, bodies)))
  {
    hide Scan, Fold, Frames, AllAdmissible, Accept, Fenced;
    scan := ScanLog(JournalFormat(c), file);
    if MAGIC <= file && JournalFormat(c).Valid() {
      ScanFileIsLongest(JournalFormat(c), file);
      if JournalBodies(c, file) != [] {
        PublicationIsFenced(c, JournalBodies(c, file));
      }
    }
  }

  // ----- runs -----

  ghost function After(c: Codec, bodies: seq<Bytes>): Option<Journal> {
    Fold(JournalFormat(c), EMPTY, bodies)
  }

  /** A published observation together with the owner that published it. */
  datatype Published = Published(observation: Observation, publisher: Owner)

  ghost function Publications(c: Codec, bodies: seq<Bytes>): seq<Published>
    requires After(c, bodies).Some?
  {
    if bodies == [] then []
    else
      FoldLast(JournalFormat(c), EMPTY, bodies);
      var last := |bodies| - 1;
      var before := Publications(c, bodies[..last]);
      var r := c.decode(bodies[last]).value;
      if r.action == Observed then before + [Published(r.observation.value, r.owner)] else before
  }

  ghost function InitialOwner(c: Codec, bodies: seq<Bytes>): Owner
    requires bodies != [] && After(c, bodies).Some?
  {
    c.decode(bodies[0]).value.owner
  }

  /** Every sequence number after `from` up to `to` lies in some published observation. */
  ghost predicate Covered(ps: seq<Published>, from: int, to: int) {
    forall n :: from < n <= to ==> CoveredAt(ps, n)
  }

  ghost predicate CoveredAt(ps: seq<Published>, n: int) {
    exists i :: 0 <= i < |ps| && ps[i].observation.first <= n <= ps[i].observation.final
  }

  /** What holds after every accepted, non-empty journal. */
  ghost predicate Fenced(st: Journal, initial: Owner, ps: seq<Published>) {
    && st.owner.Some? && st.kind.Some? && st.symbol.Some?
    && st.records == 1 + st.observations + st.changes
    && st.owner.value.token == initial.token + st.changes
    && st.observations == |ps|
    && initial.last <= st.owner.value.last
    && Covered(ps, initial.last, st.owner.value.last)
    && (st.kind.value == Trade ==> st.owner.value.last == initial.last + st.observations)
    && (forall i :: 0 <= i < |ps| ==>
          && ps[i].observation.epoch == ps[i].publisher.epoch
          && ps[i].observation.symbol == st.symbol.value && ps[i].observation.kind == st.kind.value
          && initial.token <= ps[i].publisher.token <= st.owner.value.token
          && ps[i].publisher.last == ps[i].observation.final <= st.owner.value.last)
    && (forall i, j :: 0 <= i < j < |ps| ==>
          && ps[i].publisher.token <= ps[j].publisher.token
          && ps[i].observation.final < ps[j].observation.final
          && (ps[i].publisher.token == ps[j].publisher.token ==>
                ps[i].publisher.epoch == ps[j].publisher.epoch && ps[i].publisher.generation == ps[j].publisher.generation))
    && (forall i :: 0 <= i < |ps| && ps[i].publisher.token == st.owner.value.token ==>
          ps[i].publisher.epoch == st.owner.value.epoch && ps[i].publisher.generation == st.owner.value.generation)
  }

  /**
    Publication is fenced: the token counts the ownership changes, every observation comes from
    the epoch of the owner that held the token, each token has one owner, and the observations
    cover every sequence number from the initial position to the current one.
   */
  lemma {:induction false} PublicationIsFenced(c: Codec, bodies: seq<Bytes>)
    requires bodies != [] && After(c, bodies).Some?
    ensures Fenced(After(c, bodies).value, InitialOwner(c, bodies), Publications(c, bodies))
    decreases |bodies|
  {
    hide Fold;
    FoldLast(JournalFormat(c), EMPTY, bodies);
    var last := |bodies| - 1;
    var front := bodies[..last];
    var before := After(c, front).value;
    assert Accept(c, before, bodies[last]) == After(c, bodies);
    if last == 0 {
      EmptyJournal(c);
      assert front == [];
    } else {
      PublicationIsFenced(c, front);
      assert InitialOwner(c, front) == InitialOwner(c, bodies);
      StepIsFenced(c, before, InitialOwner(c, front), Publications(c, front), bodies[last]);
    }
  }

  lemma EmptyJournal(c: Codec)
    ensures After(c, []) == Some(EMPTY)
    ensures Publications(c, []) == []
  {
  }

  lemma StepIsFenced(c: Codec, st: Journal, initial: Owner, ps: seq<Published>, body: Bytes)
    requires Fenced(st, initial, ps) && st.records > 0
    requires Accept(c, st, body).Some?
    ensures
      var r := c.decode(body).value;
      Fenced(Accept(c, st, body).value, initial,
             if r.action == Observed then ps + [Published(r.observation.value, r.owner)] else ps)
  {
    hide Covered, Blank;
    var r := c.decode(body).value;
    if r.action == Observed {
      ExtendCoverage(ps, Published(r.observation.value, r.owner), initial.last, st.owner.value.last);
    }
  }

  lemma ExtendCoverage(ps: seq<Published>, p: Published, from: int, to: int)
    requires Covered(ps, from, to) && p.observation.first <= to + 1
    ensures Covered(ps + [p], from, p.observation.final)
  {
    forall n | from < n <= p.observation.final ensures CoveredAt(ps + [p], n) {
      if n <= to {
        assert CoveredAt(ps, n);
        var i :| 0 <= i < |ps| && ps[i].observation.first <= n <= ps[i].observation.final;
        assert (ps + [p])[i] == ps[i];
      } else {
        assert (ps + [p])[|ps|] == p;
      }
    }
  }
}
