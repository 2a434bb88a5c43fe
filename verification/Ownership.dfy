/**
  The ownership ledger: an initial owner, then pairs of a prepared and an activated record that
  hand publication to the next generation under a fencing token one higher.
 */
module Ownership {
  import opened Wrappers
  import opened Streams
  import opened ChainLog

  datatype Pointer = Pointer(
    symbol: string,
    generation: string,
    depthEpoch: string,
    tradeEpoch: string,
    token: int,
    depthLast: int,
    tradeLast: int)
  {
    predicate Valid() {
      && symbol in {"BTCUSDT", "ETHUSDT"}
      && generation != "" && depthEpoch != "" && tradeEpoch != ""
      && token > 0 && depthLast >= 0 && tradeLast >= 0
    }
  }

  datatype Activation = Activation(
    activationId: string,
    symbol: string,
    predecessorGeneration: string,
    successorGeneration: string,
    predecessorDepthEpoch: string,
    predecessorTradeEpoch: string,
    successorDepthEpoch: string,
    successorTradeEpoch: string,
    depthBoundaryId: string,
    tradeBoundaryId: string,
    depthCommit: Bytes,
    tradeCommit: Bytes,
    depthBoundary: int,
    tradeBoundary: int,
    token: int)
  {
    predicate Valid() {
      && activationId != "" && symbol in {"BTCUSDT", "ETHUSDT"}
      && predecessorGeneration != "" && successorGeneration != ""
      && predecessorGeneration != successorGeneration
      && predecessorDepthEpoch != "" && predecessorTradeEpoch != ""
      && successorDepthEpoch != "" && successorTradeEpoch != ""
      && predecessorDepthEpoch != successorDepthEpoch
      && predecessorTradeEpoch != successorTradeEpoch
      && depthBoundaryId != "" && tradeBoundaryId != "" && depthBoundaryId != tradeBoundaryId
      && depthBoundary >= 0 && tradeBoundary >= 0 && token > 0
    }

    /** The owner once the activation is durable. */
    function Successor(): Pointer {
      Pointer(symbol, successorGeneration, successorDepthEpoch, successorTradeEpoch, token,
              depthBoundary, tradeBoundary)
    }

    /** `_validate_predecessor`: the activation continues exactly this owner. */
    predicate Follows(owner: Pointer) {
      && owner.Valid() && Valid()
      && symbol == owner.symbol
      && predecessorGeneration == owner.generation
      && predecessorDepthEpoch == owner.depthEpoch
      && predecessorTradeEpoch == owner.tradeEpoch
      && token == owner.token + 1
    }
  }

  datatype Action = Initialized | Prepared | Activated

  datatype Record = Record(
    recordIndex: nat,
    previous: Bytes,
    action: Action,
    initialOwner: Option<Pointer>,
    activation: Option<Activation>,
    preparedDigest: Option<Bytes>)

  datatype Codec = Codec(hash: Bytes -> Bytes, decode: Bytes -> Option<Record>)

  datatype Ledger = Ledger(
    records: nat,
    previous: Bytes,
    owner: Option<Pointer>,
    pending: Option<(Activation, Bytes)>,
    lastActivation: Option<Activation>)

  const MAGIC: Bytes := [66, 78, 79, 87, 78, 0, 1, 10]
  const MAX_RECORD_BYTES: nat := 256 * 1024

  const EMPTY := Ledger(0, ZERO_DIGEST, None, None, None)

  /** One record of `scan_ownership_ledger`. */
  function Accept(c: Codec, st: Ledger, body: Bytes): Option<Ledger> {
    var decoded := c.decode(body);
    if decoded.None? then None
    else
      var r := decoded.value;
      var next := st.(records := st.records + 1, previous := c.hash(body));
      if r.recordIndex != st.records || r.previous != st.previous then None
      else
        match r.action
        case Initialized =>
          if st.records != 0 || st.owner.Some? || st.pending.Some?
             || r.activation.Some? || r.preparedDigest.Some?
             || r.initialOwner.None? || !r.initialOwner.value.Valid()
          then None
          else Some(next.(owner := r.initialOwner))
        case Prepared =>
          if st.owner.None? || st.pending.Some? || r.initialOwner.Some? || r.preparedDigest.Some?
             || r.activation.None? || !r.activation.value.Follows(st.owner.value)
          then None
          else Some(next.(pending := Some((r.activation.value, c.hash(body)))))
        case Activated =>
          if st.pending.None? || r.initialOwner.Some? || r.activation.Some?
             || r.preparedDigest != Some(st.pending.value.1)
          then None
          else
            var activation := st.pending.value.0;
            Some(next.(owner := Some(activation.Successor()), lastActivation := Some(activation),
                       pending := None))
  }

  function LedgerFormat(c: Codec): Format<Ledger> {
    Format(MAGIC, 0, MAX_RECORD_BYTES, c.hash, EMPTY, (st: Ledger, body: Bytes) => Accept(c, st, body))
  }

  /** The records of a ledger file that the scan accepts. */
  ghost function LedgerBodies(c: Codec, file: Bytes): seq<Bytes>
    requires |file| >= |MAGIC|
  {
    Scan(LedgerFormat(c), EMPTY, file[|MAGIC|..]).bodies
  }

  /**
    `scan_ownership_ledger` reads the longest strictly valid prefix and reports the owner in force
    after it; without the magic it reports nothing.
   */
  method ScanOwnershipLedger(c: Codec, file: Bytes) returns (scan: LogScan<Ledger>)
    ensures scan == ScanFile(LedgerFormat(c), file)
    ensures !(MAGIC <= file) ==> scan == LogScan(0, 0, EMPTY, BadMagic)
    ensures LedgerFormat(c).Valid() && MAGIC <= file ==>
      var bodies := LedgerBodies(c, file);
      && IsLongest(LedgerFormat(c), file, scan, bodies)
      && After(c, bodies).Some?
      && scan.state.owner == InForce(Owners(c, bodies))
  {
    hide Scan, Fold, Frames, AllAdmissible, Accept;
    scan := ScanLog(LedgerFormat(c), file);
    if MAGIC <= file && LedgerFormat(c).Valid() {
      ScanFileIsLongest(LedgerFormat(c), file);
      LedgerShape(c, LedgerBodies(c, file));
      NoOwners(c);
    }
  }

  lemma NoOwners(c: Codec)
    ensures After(c, []) == Some(EMPTY) && Owners(c, []) == []
  {
  }

  // ----- runs -----

  /** The ledger after the records, where every one of them is accepted. */
  ghost function After(c: Codec, bodies: seq<Bytes>): Option<Ledger> {
    Fold(LedgerFormat(c), EMPTY, bodies)
  }

  /** The owners in force one after another: the initial one and one per activation. */
  ghost function Owners(c: Codec, bodies: seq<Bytes>): seq<Pointer>
    requires After(c, bodies).Some?
  {
    if bodies == [] then []
    else
      FoldLast(LedgerFormat(c), EMPTY, bodies);
      var before := Owners(c, bodies[..|bodies| - 1]);
      var action := c.decode(bodies[|bodies| - 1]).value.action;
      if action == Prepared then before else before + [After(c, bodies).value.owner.value]
  }

  /** The last owner of a history. */
  ghost function InForce(owners: seq<Pointer>): Option<Pointer> {
    if owners == [] then None else Some(owners[|owners| - 1])
  }

  /**
    The shape of every accepted ledger: the record count is one plus two per activation plus one
    for a pending preparation; the active owner is the last of the owner history, its fencing
    token counts the activations, and it is what the last activation announced.
   */
  ghost predicate WellShaped(st: Ledger, owners: seq<Pointer>) {
    if owners == [] then st == EMPTY
    else
      && st.records == 1 + 2 * (|owners| - 1) + (if st.pending.Some? then 1 else 0)
      && st.owner == Some(owners[|owners| - 1])
      && (forall i :: 0 <= i < |owners| ==>
            owners[i].Valid() && owners[i].token == owners[0].token + i && owners[i].symbol == owners[0].symbol)
      && (st.pending.Some? ==> st.pending.value.0.Follows(st.owner.value))
      && (if |owners| == 1 then st.lastActivation.None?
          else st.lastActivation.Some? && st.lastActivation.value.Successor() == owners[|owners| - 1])
  }

  lemma {:induction false} LedgerShape(c: Codec, bodies: seq<Bytes>)
    requires After(c, bodies).Some?
    ensures WellShaped(After(c, bodies).value, Owners(c, bodies))
    ensures bodies != [] <==> Owners(c, bodies) != []
  {
    if bodies != [] {
      hide Fold;
      FoldLast(LedgerFormat(c), EMPTY, bodies);
      var last := |bodies| - 1;
      LedgerShape(c, bodies[..last]);
      var before := After(c, bodies[..last]).value;
      var owners := Owners(c, bodies[..last]);
      assert Accept(c, before, bodies[last]) == After(c, bodies);
      OneMoreRecord(c, before, owners, bodies[last]);
    }
  }

  lemma OneMoreRecord(c: Codec, st: Ledger, owners: seq<Pointer>, body: Bytes)
    requires WellShaped(st, owners) && Accept(c, st, body).Some?
    ensures
      var next := Accept(c, st, body).value;
      && next.owner.Some?
      && (if c.decode(body).value.action == Prepared then owners != [] && WellShaped(next, owners)
          else WellShaped(next, owners + [next.owner.value]))
  {
  }

  /** A prefix of the records has a prefix of the owners. */
  lemma {:induction false} OwnersOfPrefix(c: Codec, bodies: seq<Bytes>, m: nat)
    requires After(c, bodies).Some? && m <= |bodies|
    ensures After(c, bodies[..m]).Some?
    ensures Owners(c, bodies[..m]) <= Owners(c, bodies)
    decreases |bodies|
  {
    hide Fold;
    if m == |bodies| {
      assert bodies[..m] == bodies;
    } else {
      FoldLast(LedgerFormat(c), EMPTY, bodies);
      var last := |bodies| - 1;
      assert bodies[..last][..m] == bodies[..m];
      OwnersOfPrefix(c, bodies[..last], m);
    }
  }

  /**
    Every truncation of a valid ledger recovers an owner from the original's own history, and
    never a mixture: no owner before the first record, otherwise exactly the owner in force after
    the whole records that precede the cut, recognisable by its fencing token.
   */
  lemma {:induction false} TruncationRecoversAnOwner(c: Codec, bodies: seq<Bytes>, cut: nat) returns (m: nat)
    requires Readable(LedgerFormat(c), EMPTY, bodies)
    requires cut <= |Frames(LedgerFormat(c), bodies)|
    ensures m <= |bodies| && AllAdmissible(LedgerFormat(c), bodies[..m]) && After(c, bodies[..m]).Some?
    ensures |Frames(LedgerFormat(c), bodies[..m])| <= cut
    ensures forall k :: m < k <= |bodies| && AllAdmissible(LedgerFormat(c), bodies[..k]) ==>
              cut < |Frames(LedgerFormat(c), bodies[..k])|
    ensures
      var owners, prefix := Owners(c, bodies), Owners(c, bodies[..m]);
      var st := Scan(LedgerFormat(c), EMPTY, Frames(LedgerFormat(c), bodies)[..cut]).state;
      && Some(st) == After(c, bodies[..m]) && prefix <= owners
      && (if m == 0 then st == EMPTY
          else
            && st.owner.Some? && st.owner == InForce(prefix) && owners != []
            && owners[0].token <= st.owner.value.token < owners[0].token + |owners|
            && owners[st.owner.value.token - owners[0].token] == st.owner.value)
  {
    hide Fold, Scan, Frames, Accept;
    m := ScanOfCut(LedgerFormat(c), EMPTY, bodies, cut);
    OwnersOfPrefix(c, bodies, m);
    LedgerShape(c, bodies[..m]);
    LedgerShape(c, bodies);
    NoOwners(c);
    var owners, prefix := Owners(c, bodies), Owners(c, bodies[..m]);
    if prefix != [] {
      var k := |prefix| - 1;
      assert prefix[k] == owners[k];
    } else {
      assert bodies[..m] == [];
    }
  }

  // ----- recovery -----

  datatype BoundaryProof = BoundaryProof(
    kind: StreamKind,
    symbol: string,
    predecessorEpoch: string,
    successorEpoch: string,
    boundaryId: string,
    sequence: int,
    commit: Bytes)

  /** `_validate_proofs`: both committed boundaries belong to the activation. */
  predicate ProofsMatch(a: Activation, depth: BoundaryProof, trade: BoundaryProof) {
    && depth.kind == Depth && trade.kind == Trade
    && a.symbol == depth.symbol && a.symbol == trade.symbol
    && a.predecessorDepthEpoch == depth.predecessorEpoch
    && a.predecessorTradeEpoch == trade.predecessorEpoch
    && a.successorDepthEpoch == depth.successorEpoch
    && a.successorTradeEpoch == trade.successorEpoch
    && a.depthBoundaryId == depth.boundaryId && a.tradeBoundaryId == trade.boundaryId
    && a.depthBoundary == depth.sequence && a.tradeBoundary == trade.sequence
    && a.depthCommit == depth.commit && a.tradeCommit == trade.commit
  }

  datatype RecoveryError =
    | NotRecoverable | InvalidOwner | UnexpectedProofs | MissingProofs | ProofMismatch | OwnerMismatch

  function RecoverSourcePointer(scan: LogScan<Ledger>, depth: Option<BoundaryProof>, trade: Option<BoundaryProof>)
    : Result<Pointer, RecoveryError>
  {
    var st := scan.state;
    if scan.reason != CleanEof || scan.records == 0 || st.owner.None? then Err(NotRecoverable)
    else if !st.owner.value.Valid() then Err(InvalidOwner)
    else if st.lastActivation.None? then
      if depth.Some? || trade.Some? then Err(UnexpectedProofs) else Ok(st.owner.value)
    else if depth.None? || trade.None? then Err(MissingProofs)
    else if !ProofsMatch(st.lastActivation.value, depth.value, trade.value) then Err(ProofMismatch)
    else if st.lastActivation.value.Successor() != st.owner.value then Err(OwnerMismatch)
    else Ok(st.owner.value)
  }

  /**
    On a scanned ledger the owner checks of recovery are redundant: only an unclean or empty
    ledger or the boundary proofs can refuse it, and what it returns is the last owner, whose
    epochs and positions are the ones the proofs committed.
   */
  lemma {:induction false} RecoveryReturnsTheOwner(c: Codec, file: Bytes, depth: Option<BoundaryProof>, trade: Option<BoundaryProof>)
    requires LedgerFormat(c).Valid()
    ensures
      var r := RecoverSourcePointer(ScanFile(LedgerFormat(c), file), depth, trade);
      && r != Err(InvalidOwner) && r != Err(OwnerMismatch)
      && (r.Ok? && depth.Some? && trade.Some? ==>
            && r.value.depthEpoch == depth.value.successorEpoch
            && r.value.tradeEpoch == trade.value.successorEpoch
            && r.value.depthLast == depth.value.sequence
            && r.value.tradeLast == trade.value.sequence)
  {
    hide Fold, Scan, Frames;
    var f := LedgerFormat(c);
    if f.magic <= file {
      var rest := file[|f.magic|..];
      ScanIsSound(f, EMPTY, rest);
      LedgerShape(c, Scan(f, EMPTY, rest).bodies);
    }
  }
}
