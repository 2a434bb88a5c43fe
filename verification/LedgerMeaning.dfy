/**
  Which lists of records the four logs accept, told from the records alone: each one against the
  records before it, without the state that a reader carries.
 */
module LedgerMeaning {
  import opened Wrappers
  import opened Streams
  import opened ChainLog
  import RawLog
  import SegmentManifest
  import SegmentReading
  import Ownership
  import CanonicalOutput

  // ----- framing -----

  /** The number that the first four bytes give, most significant byte first. */
  function BigEndian(b: Bytes): nat
    requires |b| >= 4
  {
    b[0] as int * 0x100_0000 + b[1] as int * 0x1_0000 + b[2] as int * 0x100 + b[3] as int
  }

  lemma LengthMeans(b: Bytes)
    requires |b| >= 4
    ensures Unpack(b[..4]) == BigEndian(b)
  {
  }

  /** A framed record: the length of the body, the body, and its digest. */
  lemma {:induction false} RecordLayout<S>(f: Format<S>, body: Bytes)
    requires f.Valid() && f.Admissible(body)
    ensures
      var framed := Framed(f, body);
      && |framed| == |body| + 36 && BigEndian(framed) == |body|
      && framed[4..4 + |body|] == body && framed[4 + |body|..] == f.hash(body)
  {
    hide Pack, Unpack;
    var framed := Framed(f, body);
    UnpackOfPack(|body|);
    assert framed[..4] == Pack(|body|);
    LengthMeans(framed);
  }

  /** Why a record cannot be read, by what is left of the file. */
  lemma {:induction false} StopMeans<S>(f: Format<S>, st: S, rest: Bytes)
    ensures
      var step := ReadOne(f, st, rest);
      && (step == Stop(CleanEof) <==> rest == [])
      && (step == Stop(PartialLength) <==> 0 < |rest| < 4)
      && (|rest| >= 4 ==>
            var n := BigEndian(rest);
            var fits := f.minBody <= n <= f.maxBody;
            && (step == Stop(BadLength) <==> !fits)
            && (step == Stop(PartialBody) <==> fits && |rest| < 4 + n)
            && (step == Stop(PartialDigest) <==> fits && 4 + n <= |rest| < 36 + n)
            && (fits && 36 + n <= |rest| ==>
                  var body, digest := rest[4..4 + n], rest[4 + n..36 + n];
                  && (step == Stop(DigestMismatch) <==> f.hash(body) != digest)
                  && (step == Stop(RecordRejected) <==> f.hash(body) == digest && f.accept(st, body).None?)
                  && (step.Good? <==> f.hash(body) == digest && f.accept(st, body).Some?)
                  && (step.Good? ==> step.body == body && step.size == 36 + n && f.accept(st, body) == Some(step.state))))
  {
    hide Unpack;
    if |rest| >= 4 {
      LengthMeans(rest);
    }
  }

  // ----- lists of accepted records -----

  lemma {:induction false} FoldNext<S>(f: Format<S>, st: S, bodies: seq<Bytes>)
    requires bodies != []
    ensures
      var last := |bodies| - 1;
      var before := Fold(f, st, bodies[..last]);
      Fold(f, st, bodies) == if before.None? then None else f.accept(before.value, bodies[last])
  {
    hide Fold;
    var last := |bodies| - 1;
    if Fold(f, st, bodies[..last]).Some? {
      FoldConcat(f, st, bodies[..last], [bodies[last]]);
      assert bodies == bodies[..last] + [bodies[last]];
      FoldOne(f, Fold(f, st, bodies[..last]).value, bodies[last]);
    } else if Fold(f, st, bodies).Some? {
      FoldLast(f, st, bodies);
    }
  }

  lemma FoldOne<S>(f: Format<S>, st: S, body: Bytes)
    ensures Fold(f, st, [body]) == f.accept(st, body)
  {
    assert [body][1..] == [];
  }

  /** The digest that the record at `i` must link to. */
  function LinkTo(hash: Bytes -> Bytes, bodies: seq<Bytes>, i: nat): Bytes
    requires i <= |bodies|
  {
    if i == 0 then ZERO_DIGEST else hash(bodies[i - 1])
  }

  // ----- the raw log -----

  predicate OfStream(c: RawLog.Codec, body: Bytes, epoch: string, stream: string) {
    && c.decode(body).Some?
    && var frame := c.decode(body).value.frame;
       frame.connectionEpoch == epoch && frame.stream == stream
  }

  ghost function Earlier(c: RawLog.Codec, bodies: seq<Bytes>, i: nat, epoch: string, stream: string): set<int>
    requires i <= |bodies|
  {
    set j | 0 <= j < i && OfStream(c, bodies[j], epoch, stream)
  }

  /** The record links to the one before it and has the next frame index of its stream. */
  ghost predicate RawInPlace(c: RawLog.Codec, bodies: seq<Bytes>, i: nat)
    requires i < |bodies|
  {
    && c.decode(bodies[i]).Some?
    && var record := c.decode(bodies[i]).value;
       && record.previous == LinkTo(c.hash, bodies, i)
       && record.frame.frameIndex == |Earlier(c, bodies, i, record.frame.connectionEpoch, record.frame.stream)|
  }

  lemma {:induction false} CountMeans(c: RawLog.Codec, bodies: seq<Bytes>, epoch: string, stream: string)
    ensures RawLog.CountOf(c, bodies, (epoch, stream)) == |Earlier(c, bodies, |bodies|, epoch, stream)|
  {
    if bodies != [] {
      var last := |bodies| - 1;
      CountMeans(c, bodies[..last], epoch, stream);
      var before := Earlier(c, bodies[..last], last, epoch, stream);
      assert Earlier(c, bodies, |bodies|, epoch, stream) ==
             if OfStream(c, bodies[last], epoch, stream) then before + {last} else before;
    }
  }

  lemma RawStepMeans(c: RawLog.Codec, bodies: seq<Bytes>, st: RawLog.RawState)
    requires bodies != []
    requires Fold(RawLog.RawFormat(c), RawLog.RawFormat(c).start, bodies[..|bodies| - 1]) == Some(st)
    ensures RawLog.AcceptRaw(c, st, bodies[|bodies| - 1]).Some? <==> RawInPlace(c, bodies, |bodies| - 1)
  {
    hide Fold, RawLog.CountOf, Earlier;
    var last := |bodies| - 1;
    RawLog.StateCounts(c, bodies[..last], st);
    if c.decode(bodies[last]).Some? {
      var frame := c.decode(bodies[last]).value.frame;
      CountMeans(c, bodies[..last], frame.connectionEpoch, frame.stream);
      SameEarlier(c, bodies, last, frame.connectionEpoch, frame.stream);
    }
  }

  lemma SameEarlier(c: RawLog.Codec, bodies: seq<Bytes>, n: nat, epoch: string, stream: string)
    requires n <= |bodies|
    ensures Earlier(c, bodies[..n], n, epoch, stream) == Earlier(c, bodies, n, epoch, stream)
  {
  }

  lemma SameRawPlace(c: RawLog.Codec, bodies: seq<Bytes>, n: nat, i: nat)
    requires i < n <= |bodies|
    ensures RawInPlace(c, bodies[..n], i) <==> RawInPlace(c, bodies, i)
  {
    if c.decode(bodies[i]).Some? {
      var frame := c.decode(bodies[i]).value.frame;
      assert Earlier(c, bodies[..n], i, frame.connectionEpoch, frame.stream) == Earlier(c, bodies, i, frame.connectionEpoch, frame.stream);
    }
  }

  /** The raw log accepts exactly the linked records whose frames count up within each stream. */
  lemma {:induction false} RawLogMeans(c: RawLog.Codec, bodies: seq<Bytes>)
    ensures
      Fold(RawLog.RawFormat(c), RawLog.RawFormat(c).start, bodies).Some? <==>
      forall i :: 0 <= i < |bodies| ==> RawInPlace(c, bodies, i)
  {
    hide RawInPlace;
    if bodies != [] {
      hide Fold;
      var last, f := |bodies| - 1, RawLog.RawFormat(c);
      var front := bodies[..last];
      RawLogMeans(c, front);
      FoldNext(f, f.start, bodies);
      forall i | 0 <= i < last ensures RawInPlace(c, front, i) <==> RawInPlace(c, bodies, i) {
        SameRawPlace(c, bodies, last, i);
      }
      if Fold(f, f.start, front).Some? {
        RawStepMeans(c, bodies, Fold(f, f.start, front).value);
      }
      if forall i :: 0 <= i < |bodies| ==> RawInPlace(c, bodies, i) {
        forall i | 0 <= i < last ensures RawInPlace(c, front, i) {
          assert RawInPlace(c, bodies, i);
        }
      }
    }
  }

  // ----- one segment of a stream -----

  /** The record is of the stream, links to the one before it and has the next frame index. */
  predicate SegmentInPlace(c: RawLog.Codec, key: RawLog.Key, previous: Bytes, first: nat, bodies: seq<Bytes>, i: nat)
    requires i < |bodies|
  {
    && OfStream(c, bodies[i], key.0, key.1)
    && c.decode(bodies[i]).value.frame.frameIndex == first + i
    && c.decode(bodies[i]).value.previous == if i == 0 then previous else c.hash(bodies[i - 1])
  }

  /**
    A segment reading accepts exactly the records of its stream that link on from the given digest
    and count on from the given frame; its state is then the last digest and the next frame.
   */
  lemma {:induction false} SegmentMeans(c: RawLog.Codec, key: RawLog.Key, previous: Bytes, first: nat, bodies: seq<Bytes>)
    ensures
      var f := SegmentReading.SegmentFormat(c, key, previous, first);
      var link := if bodies == [] then previous else c.hash(bodies[|bodies| - 1]);
      && (Fold(f, f.start, bodies).Some? <==>
            forall i :: 0 <= i < |bodies| ==> SegmentInPlace(c, key, previous, first, bodies, i))
      && (Fold(f, f.start, bodies).Some? ==>
            Fold(f, f.start, bodies).value == RawLog.RawState(link, map[key := first + |bodies|]))
  {
    hide SegmentInPlace;
    if bodies != [] {
      hide Fold;
      var last, f := |bodies| - 1, SegmentReading.SegmentFormat(c, key, previous, first);
      var front := bodies[..last];
      SegmentMeans(c, key, previous, first, front);
      FoldNext(f, f.start, bodies);
      forall i | 0 <= i < last
        ensures SegmentInPlace(c, key, previous, first, front, i) <==> SegmentInPlace(c, key, previous, first, bodies, i)
      {
        SameSegmentPlace(c, key, previous, first, bodies, last, i);
      }
      if Fold(f, f.start, front).Some? {
        SegmentStepMeans(c, key, previous, first, bodies, Fold(f, f.start, front).value);
      }
      if forall i :: 0 <= i < |bodies| ==> SegmentInPlace(c, key, previous, first, bodies, i) {
        forall i | 0 <= i < last ensures SegmentInPlace(c, key, previous, first, front, i) {
          assert SegmentInPlace(c, key, previous, first, bodies, i);
        }
      }
    }
  }

  lemma SameSegmentPlace(c: RawLog.Codec, key: RawLog.Key, previous: Bytes, first: nat, bodies: seq<Bytes>, n: nat, i: nat)
    requires i < n <= |bodies|
    ensures SegmentInPlace(c, key, previous, first, bodies[..n], i) <==> SegmentInPlace(c, key, previous, first, bodies, i)
  {
  }

  lemma SegmentStepMeans(c: RawLog.Codec, key: RawLog.Key, previous: Bytes, first: nat, bodies: seq<Bytes>, st: RawLog.RawState)
    requires bodies != []
    requires
      var n := |bodies| - 1;
      st == RawLog.RawState(if n == 0 then previous else c.hash(bodies[n - 1]), map[key := first + n])
    ensures
      var n := |bodies| - 1;
      var next := SegmentReading.AcceptInStream(c, key, st, bodies[n]);
      && (next.Some? <==> SegmentInPlace(c, key, previous, first, bodies, n))
      && (next.Some? ==> next.value == RawLog.RawState(c.hash(bodies[n]), map[key := first + n + 1]))
  {
    var n := |bodies| - 1;
    assert map[key := first + n][key := first + n + 1] == map[key := first + n + 1];
  }

  // ----- the segment manifest -----

  ghost predicate SealInPlace(c: SegmentManifest.Codec, bodies: seq<Bytes>, i: nat)
    requires i < |bodies|
  {
    && c.decode(bodies[i]).Some?
    && var record := c.decode(bodies[i]).value;
       var seal := record.seal;
       && record.recordIndex == i && seal.segmentIndex == i && record.previous == LinkTo(c.hash, bodies, i)
       && seal.records > 0 && seal.lastFrame + 1 == seal.firstFrame + seal.records && seal.throughOffset > 8
       && seal.terminal != ZERO_DIGEST
       && (if i == 0 then seal.firstFrame == 0 && seal.previousTerminal == ZERO_DIGEST
           else Resumes(c, bodies[i - 1], seal))
       && forall j :: 0 <= j < i ==> !UsesFile(c, bodies[j], seal.rawFile)
  }

  /** The seal goes on where the record before it stops, in the same stream. */
  predicate Resumes(c: SegmentManifest.Codec, body: Bytes, seal: SegmentManifest.Seal) {
    && c.decode(body).Some?
    && var prior := c.decode(body).value.seal;
       && seal.firstFrame == prior.lastFrame + 1 && seal.previousTerminal == prior.terminal
       && seal.connectionEpoch == prior.connectionEpoch && seal.stream == prior.stream
  }

  predicate UsesFile(c: SegmentManifest.Codec, body: Bytes, file: string) {
    c.decode(body).Some? && c.decode(body).value.seal.rawFile == file
  }

  lemma {:induction false} SealAt(c: SegmentManifest.Codec, bodies: seq<Bytes>, st: SegmentManifest.ManifestState, i: nat)
    requires Fold(SegmentManifest.ManifestFormat(c), SegmentManifest.ManifestFormat(c).start, bodies) == Some(st) && i < |bodies|
    ensures |st.seals| == |bodies| && c.decode(bodies[i]).Some? && st.seals[i] == c.decode(bodies[i]).value.seal
    decreases |bodies|
  {
    hide Fold;
    var last, f := |bodies| - 1, SegmentManifest.ManifestFormat(c);
    FoldNext(f, f.start, bodies);
    var before := Fold(f, f.start, bodies[..last]).value;
    SegmentManifest.SealsAreDecoded(c, bodies[..last], before);
    assert SegmentManifest.AcceptSeal(c, before, bodies[last]) == Some(st);
    if i < last {
      SealAt(c, bodies[..last], before, i);
    }
  }

  lemma SealStepMeans(c: SegmentManifest.Codec, bodies: seq<Bytes>, st: SegmentManifest.ManifestState)
    requires bodies != []
    requires Fold(SegmentManifest.ManifestFormat(c), SegmentManifest.ManifestFormat(c).start, bodies[..|bodies| - 1]) == Some(st)
    requires SegmentManifest.SealsOk(st.seals)
    ensures SegmentManifest.AcceptSeal(c, st, bodies[|bodies| - 1]).Some? <==> SealInPlace(c, bodies, |bodies| - 1)
  {
    hide Fold;
    var last := |bodies| - 1;
    var front := bodies[..last];
    SegmentManifest.SealsAreDecoded(c, front, st);
    forall i | 0 <= i < last ensures c.decode(bodies[i]).Some? && st.seals[i] == c.decode(bodies[i]).value.seal {
      SealAt(c, front, st, i);
    }
    if c.decode(bodies[last]).Some? {
      FilesMean(c, bodies, st.seals, c.decode(bodies[last]).value.seal.rawFile);
    }
  }

  lemma FilesMean(c: SegmentManifest.Codec, bodies: seq<Bytes>, seals: seq<SegmentManifest.Seal>, file: string)
    requires |seals| < |bodies|
    requires forall i :: 0 <= i < |seals| ==> c.decode(bodies[i]).Some? && seals[i] == c.decode(bodies[i]).value.seal
    ensures SegmentManifest.FileUnused(seals, file) <==> forall j :: 0 <= j < |seals| ==> !UsesFile(c, bodies[j], file)
  {
    if forall j :: 0 <= j < |seals| ==> !UsesFile(c, bodies[j], file) {
      forall i | 0 <= i < |seals| ensures seals[i].rawFile != file {
        assert !UsesFile(c, bodies[i], file);
      }
    }
  }

  lemma SameSealPlace(c: SegmentManifest.Codec, bodies: seq<Bytes>, n: nat, i: nat)
    requires i < n <= |bodies|
    ensures SealInPlace(c, bodies[..n], i) <==> SealInPlace(c, bodies, i)
  {
    hide UsesFile;
    var front := bodies[..n];
    assert forall j :: 0 <= j < n ==> front[j] == bodies[j];
  }

  /** The manifest accepts exactly the linked seals that each go on where the one before stopped. */
  lemma {:induction false} ManifestMeans(c: SegmentManifest.Codec, bodies: seq<Bytes>)
    ensures
      Fold(SegmentManifest.ManifestFormat(c), SegmentManifest.ManifestFormat(c).start, bodies).Some? <==>
      forall i :: 0 <= i < |bodies| ==> SealInPlace(c, bodies, i)
  {
    hide SealInPlace;
    if bodies != [] {
      hide Fold, SegmentManifest.SealsOk;
      var last, f := |bodies| - 1, SegmentManifest.ManifestFormat(c);
      var front := bodies[..last];
      ManifestMeans(c, front);
      FoldNext(f, f.start, bodies);
      forall i | 0 <= i < last ensures SealInPlace(c, front, i) <==> SealInPlace(c, bodies, i) {
        SameSealPlace(c, bodies, last, i);
      }
      if Fold(f, f.start, front).Some? {
        NoSealsAreOk(c);
        SegmentManifest.AcceptedSealsAreOk(c, f.start, front);
        SealStepMeans(c, bodies, Fold(f, f.start, front).value);
      }
      if forall i :: 0 <= i < |bodies| ==> SealInPlace(c, bodies, i) {
        forall i | 0 <= i < last ensures SealInPlace(c, front, i) {
          assert SealInPlace(c, bodies, i);
        }
      }
    }
  }

  lemma NoSealsAreOk(c: SegmentManifest.Codec)
    ensures SegmentManifest.SealsOk(SegmentManifest.ManifestFormat(c).start.seals)
  {
  }

  // ----- the publication journal -----

  predicate HasInk(text: string) {
    exists i :: 0 <= i < |text| && text[i] != ' ' && text[i] != '\t' && text[i] != '\n' && text[i] != '\r'
  }

  ghost predicate Publishes(r: CanonicalOutput.Record, prior: CanonicalOutput.Owner) {
    && r.action.Observed? && r.observation.Some? && r.activationDigest.None?
    && var o := r.observation.value;
       && (o.symbol, o.kind, o.epoch) == (r.symbol, r.kind, prior.epoch)
       && (r.kind.Depth? ==> o.first <= prior.last + 1 && prior.last < o.final)
       && (r.kind.Trade? ==> o.first == o.final == prior.last + 1)
       && (r.owner.generation, r.owner.epoch, r.owner.token, r.owner.last) ==
          (prior.generation, prior.epoch, prior.token, o.final)
  }

  ghost predicate HandsOver(r: CanonicalOutput.Record, prior: CanonicalOutput.Owner) {
    && r.action.OwnershipChanged? && r.observation.None? && r.activationDigest.Some? && |r.activationDigest.value| == 32
    && r.owner.generation != prior.generation && r.owner.epoch != prior.epoch
    && r.owner.token == prior.token + 1 && r.owner.last == prior.last
  }

  /** The record against the first one and the one before it. */
  ghost predicate OutputInPlace(c: CanonicalOutput.Codec, bodies: seq<Bytes>, i: nat)
    requires i < |bodies|
  {
    && c.decode(bodies[i]).Some?
    && var r := c.decode(bodies[i]).value;
       && r.recordIndex == i && r.previous == LinkTo(c.hash, bodies, i)
       && HasInk(r.owner.generation) && HasInk(r.owner.epoch) && r.owner.token > 0 && r.owner.last >= 0
       && (r.symbol == "BTCUSDT" || r.symbol == "ETHUSDT")
       && (if i == 0 then r.action.Initialized? && r.observation.None? && r.activationDigest.None?
           else
             && c.decode(bodies[0]).Some? && c.decode(bodies[i - 1]).Some?
             && c.decode(bodies[0]).value.symbol == r.symbol && c.decode(bodies[0]).value.kind == r.kind
             && var prior := c.decode(bodies[i - 1]).value.owner;
                Publishes(r, prior) || HandsOver(r, prior))
  }

  lemma BlankMeans(text: string)
    ensures CanonicalOutput.Blank(text) <==> !HasInk(text)
  {
  }

  /** The state after a list of records: the last one's owner, the first one's symbol and kind. */
  lemma {:induction false} OutputState(c: CanonicalOutput.Codec, bodies: seq<Bytes>, st: CanonicalOutput.Journal)
    requires CanonicalOutput.After(c, bodies) == Some(st)
    ensures st.records == |bodies| && st.previous == LinkTo(c.hash, bodies, |bodies|)
    ensures bodies == [] ==> st == CanonicalOutput.EMPTY
    ensures bodies != [] ==>
      && c.decode(bodies[0]).Some? && c.decode(bodies[|bodies| - 1]).Some?
      && st.owner == Some(c.decode(bodies[|bodies| - 1]).value.owner)
      && st.symbol == Some(c.decode(bodies[0]).value.symbol) && st.kind == Some(c.decode(bodies[0]).value.kind)
  {
    if bodies != [] {
      hide Fold;
      var last, f := |bodies| - 1, CanonicalOutput.JournalFormat(c);
      FoldNext(f, CanonicalOutput.EMPTY, bodies);
      var before := CanonicalOutput.After(c, bodies[..last]).value;
      OutputState(c, bodies[..last], before);
      assert CanonicalOutput.Accept(c, before, bodies[last]) == Some(st);
    }
  }

  lemma OutputStepMeans(c: CanonicalOutput.Codec, bodies: seq<Bytes>, st: CanonicalOutput.Journal)
    requires bodies != [] && CanonicalOutput.After(c, bodies[..|bodies| - 1]) == Some(st)
    ensures CanonicalOutput.Accept(c, st, bodies[|bodies| - 1]).Some? <==> OutputInPlace(c, bodies, |bodies| - 1)
  {
    hide CanonicalOutput.Blank, HasInk, Fold;
    var last := |bodies| - 1;
    OutputState(c, bodies[..last], st);
    if c.decode(bodies[last]).Some? {
      var r := c.decode(bodies[last]).value;
      BlankMeans(r.owner.generation);
      BlankMeans(r.owner.epoch);
      match r.action
      case Initialized =>
      case Observed =>
      case OwnershipChanged =>
    }
  }

  lemma SameOutputPlace(c: CanonicalOutput.Codec, bodies: seq<Bytes>, n: nat, i: nat)
    requires i < n <= |bodies|
    ensures OutputInPlace(c, bodies[..n], i) <==> OutputInPlace(c, bodies, i)
  {
    hide Publishes, HandsOver, HasInk;
  }

  /** The publication journal accepts exactly the records that publish or hand over one after another. */
  lemma {:induction false} OutputMeans(c: CanonicalOutput.Codec, bodies: seq<Bytes>)
    ensures CanonicalOutput.After(c, bodies).Some? <==> forall i :: 0 <= i < |bodies| ==> OutputInPlace(c, bodies, i)
  {
    hide OutputInPlace;
    if bodies != [] {
      hide Fold;
      var last, f := |bodies| - 1, CanonicalOutput.JournalFormat(c);
      var front := bodies[..last];
      OutputMeans(c, front);
      FoldNext(f, CanonicalOutput.EMPTY, bodies);
      forall i | 0 <= i < last ensures OutputInPlace(c, front, i) <==> OutputInPlace(c, bodies, i) {
        SameOutputPlace(c, bodies, last, i);
      }
      if CanonicalOutput.After(c, front).Some? {
        OutputStepMeans(c, bodies, CanonicalOutput.After(c, front).value);
      }
      if forall i :: 0 <= i < |bodies| ==> OutputInPlace(c, bodies, i) {
        forall i | 0 <= i < last ensures OutputInPlace(c, front, i) {
          assert OutputInPlace(c, bodies, i);
        }
      }
    }
  }

  // ----- the ownership ledger -----

  ghost predicate IsOwner(p: Ownership.Pointer) {
    && (p.symbol == "BTCUSDT" || p.symbol == "ETHUSDT")
    && |p.generation| > 0 && |p.depthEpoch| > 0 && |p.tradeEpoch| > 0
    && p.token >= 1 && p.depthLast >= 0 && p.tradeLast >= 0
  }

  /** The activation moves ownership from `p` to a different generation with new epochs. */
  ghost predicate Continues(a: Ownership.Activation, p: Ownership.Pointer) {
    && (a.symbol, a.predecessorGeneration, a.predecessorDepthEpoch, a.predecessorTradeEpoch, a.token) ==
       (p.symbol, p.generation, p.depthEpoch, p.tradeEpoch, p.token + 1)
    && a.activationId != "" && a.depthBoundaryId != "" && a.tradeBoundaryId != "" && a.depthBoundaryId != a.tradeBoundaryId
    && a.successorGeneration !in {"", p.generation} && a.successorDepthEpoch !in {"", p.depthEpoch}
    && a.successorTradeEpoch !in {"", p.tradeEpoch}
    && a.depthBoundary >= 0 && a.tradeBoundary >= 0
  }

  /** The activation that the record prepares, if it does. */
  function ActivationOf(c: Ownership.Codec, body: Bytes): Option<Ownership.Activation> {
    if c.decode(body).Some? then c.decode(body).value.activation else None
  }

  /** The owner once the record at the even position `i` is durable. */
  function OwnerAt(c: Ownership.Codec, bodies: seq<Bytes>, i: nat): Option<Ownership.Pointer>
    requires i < |bodies|
  {
    if i == 0 then if c.decode(bodies[0]).Some? then c.decode(bodies[0]).value.initialOwner else None
    else if ActivationOf(c, bodies[i - 1]).None? then None
    else
      var a := ActivationOf(c, bodies[i - 1]).value;
      Some(Ownership.Pointer(
             a.symbol, a.successorGeneration, a.successorDepthEpoch, a.successorTradeEpoch, a.token,
             a.depthBoundary, a.tradeBoundary))
  }

  /**
    The first record names an owner; after it records of odd position prepare an activation that
    continues the owner, and those of even position activate the one before them.
   */
  ghost predicate LedgerInPlace(c: Ownership.Codec, bodies: seq<Bytes>, i: nat)
    requires i < |bodies|
  {
    && c.decode(bodies[i]).Some?
    && var r := c.decode(bodies[i]).value;
       && r.recordIndex == i && r.previous == LinkTo(c.hash, bodies, i)
       && (if i == 0 then
             && r.action.Initialized? && r.initialOwner.Some? && IsOwner(r.initialOwner.value)
             && r.activation.None? && r.preparedDigest.None?
           else if i % 2 == 1 then
             && r.action.Prepared? && r.initialOwner.None? && r.preparedDigest.None?
             && r.activation.Some? && OwnerAt(c, bodies, i - 1).Some?
             && Continues(r.activation.value, OwnerAt(c, bodies, i - 1).value)
           else
             && r.action.Activated? && r.initialOwner.None? && r.activation.None?
             && r.preparedDigest == Some(c.hash(bodies[i - 1])))
  }

  lemma ValidMeans(p: Ownership.Pointer)
    ensures p.Valid() <==> IsOwner(p)
  {
  }

  lemma FollowsMeans(a: Ownership.Activation, p: Ownership.Pointer)
    requires IsOwner(p)
    ensures a.Follows(p) <==> Continues(a, p)
  {
  }

  /** The position of the last activation that took effect among the first `n` records. */
  function LastTaken(n: nat): int {
    if n < 3 then -1 else if n % 2 == 1 then n - 2 else n - 3
  }

  /** The ledger after a list of records. */
  ghost predicate Stands(c: Ownership.Codec, bodies: seq<Bytes>, st: Ownership.Ledger) {
    var n := |bodies|;
    && st.records == n && st.previous == LinkTo(c.hash, bodies, n)
    && (if n == 0 then st.owner.None? && st.pending.None?
        else if n % 2 == 1 then st.owner.Some? && st.owner == OwnerAt(c, bodies, n - 1) && st.pending.None?
        else
          && st.owner.Some? && st.owner == OwnerAt(c, bodies, n - 2)
          && ActivationOf(c, bodies[n - 1]).Some? && Continues(ActivationOf(c, bodies[n - 1]).value, st.owner.value)
          && st.pending == Some((ActivationOf(c, bodies[n - 1]).value, c.hash(bodies[n - 1]))))
    && st.lastActivation == (if LastTaken(n) < 0 then None else ActivationOf(c, bodies[LastTaken(n)]))
    && (st.owner.Some? ==> IsOwner(st.owner.value))
  }

  lemma LedgerStepMeans(c: Ownership.Codec, bodies: seq<Bytes>, st: Ownership.Ledger)
    requires bodies != [] && Stands(c, bodies[..|bodies| - 1], st)
    ensures
      var last := |bodies| - 1;
      && (Ownership.Accept(c, st, bodies[last]).Some? <==> LedgerInPlace(c, bodies, last))
      && (Ownership.Accept(c, st, bodies[last]).Some? ==> Stands(c, bodies, Ownership.Accept(c, st, bodies[last]).value))
  {
    hide IsOwner, Continues;
    var last := |bodies| - 1;
    if c.decode(bodies[last]).Some? {
      var r := c.decode(bodies[last]).value;
      match r.action
      case Initialized =>
        if r.initialOwner.Some? {
          ValidMeans(r.initialOwner.value);
        }
      case Prepared =>
        if st.owner.Some? && r.activation.Some? {
          FollowsMeans(r.activation.value, st.owner.value);
        }
      case Activated =>
        if st.pending.Some? {
          PendingTakes(c, bodies[..last], st);
        }
    }
  }

  lemma PendingTakes(c: Ownership.Codec, bodies: seq<Bytes>, st: Ownership.Ledger)
    requires Stands(c, bodies, st) && st.pending.Some?
    ensures IsOwner(st.pending.value.0.Successor())
  {
  }

  lemma SameLedgerPlace(c: Ownership.Codec, bodies: seq<Bytes>, n: nat, i: nat)
    requires i < n <= |bodies|
    ensures LedgerInPlace(c, bodies[..n], i) <==> LedgerInPlace(c, bodies, i)
  {
    hide IsOwner, Continues;
  }

  /**
    The ownership ledger accepts exactly an owner followed by preparations and activations in turn,
    each preparation continuing the owner in force.
   */
  lemma {:induction false} LedgerMeans(c: Ownership.Codec, bodies: seq<Bytes>)
    ensures Ownership.After(c, bodies).Some? <==> forall i :: 0 <= i < |bodies| ==> LedgerInPlace(c, bodies, i)
    ensures Ownership.After(c, bodies).Some? ==> Stands(c, bodies, Ownership.After(c, bodies).value)
  {
    hide LedgerInPlace, IsOwner, Continues, OwnerAt;
    if bodies != [] {
      hide Fold, Stands;
      var last, f := |bodies| - 1, Ownership.LedgerFormat(c);
      var front := bodies[..last];
      LedgerMeans(c, front);
      FoldNext(f, Ownership.EMPTY, bodies);
      forall i | 0 <= i < last ensures LedgerInPlace(c, front, i) <==> LedgerInPlace(c, bodies, i) {
        SameLedgerPlace(c, bodies, last, i);
      }
      if Ownership.After(c, front).Some? {
        LedgerStepMeans(c, bodies, Ownership.After(c, front).value);
      }
      if forall i :: 0 <= i < |bodies| ==> LedgerInPlace(c, bodies, i) {
        forall i | 0 <= i < last ensures LedgerInPlace(c, front, i) {
          assert LedgerInPlace(c, bodies, i);
        }
      }
    }
  }

  /** The proof names the symbol, the epochs, the boundary and the commit of one side. */
  predicate Proves(
    p: Ownership.BoundaryProof, kind: StreamKind, symbol: string, predecessor: string, successor: string, id: string,
    sequence: int, commit: Bytes)
  {
    p == Ownership.BoundaryProof(kind, symbol, predecessor, successor, id, sequence, commit)
  }

  /**
    Recovery returns the owner of a clean, non-empty ledger exactly when it gets the two proofs of
    the last activation, or none where no activation took effect.
   */
  lemma {:induction false} RecoveryIsExact(
    c: Ownership.Codec, scan: LogScan<Ownership.Ledger>, bodies: seq<Bytes>, depth: Option<Ownership.BoundaryProof>,
    trade: Option<Ownership.BoundaryProof>)
    requires Ownership.After(c, bodies) == Some(scan.state) && scan.records == |bodies|
    ensures
      var r, n := Ownership.RecoverSourcePointer(scan, depth, trade), |bodies|;
      && (r.Ok? <==>
            && scan.reason == CleanEof && n > 0
            && (if n < 3 then depth.None? && trade.None?
                else
                  && depth.Some? && trade.Some? && ActivationOf(c, bodies[LastTaken(n)]).Some?
                  && var a := ActivationOf(c, bodies[LastTaken(n)]).value;
                     && Proves(depth.value, Depth, a.symbol, a.predecessorDepthEpoch, a.successorDepthEpoch, a.depthBoundaryId,
                               a.depthBoundary, a.depthCommit)
                     && Proves(trade.value, Trade, a.symbol, a.predecessorTradeEpoch, a.successorTradeEpoch, a.tradeBoundaryId,
                               a.tradeBoundary, a.tradeCommit)))
      && (r.Ok? ==> Some(r.value) == OwnerAt(c, bodies, if n % 2 == 1 then n - 1 else n - 2))
  {
    hide LedgerInPlace, IsOwner, Continues, Fold;
    LedgerMeans(c, bodies);
    if scan.state.owner.Some? {
      ValidMeans(scan.state.owner.value);
    }
  }
}
