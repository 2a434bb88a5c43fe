/**
  When a canonical selection exists, and what it keeps, told from the two lists of observations.
 */
module SelectionVerdict {
  import opened Wrappers
  import opened Streams
  import opened CanonicalSelection

  // ----- the conditions -----

  ghost predicate IsHex(s: string) {
    |s| == 64 && forall c :: c in s ==> c in "0123456789abcdef"
  }

  /** The position is in the epoch and the stream, with a well-formed digest. */
  ghost predicate LiesIn(p: Position, epoch: string, stream: string) {
    p.epoch == epoch && p.stream == stream && IsHex(p.recordDigest)
  }

  ghost predicate ValidBoundary(b: Boundary) {
    && b.boundaryId != "" && (b.symbol == "BTCUSDT" || b.symbol == "ETHUSDT") && IsHex(b.digest)
    && b.predecessorEpoch != b.successorEpoch && |b.predecessorEpoch| > 0 && |b.successorEpoch| > 0
    && LiesIn(b.predecessorLast, b.predecessorEpoch, b.stream)
    && LiesIn(b.successorBoundary, b.successorEpoch, b.stream)
    && LiesIn(b.successorFirst, b.successorEpoch, b.stream)
    && b.predecessorDurableThrough >= b.predecessorLast.frameIndex
    && b.successorDurableThrough >= b.successorFirst.frameIndex > b.successorBoundary.frameIndex
  }

  /** A list of well-formed observations of one epoch, one frame after another. */
  ghost predicate Recorded(b: Boundary, epoch: string, os: seq<Observation>) {
    && |os| > 0
    && (forall i, j :: 0 <= i < |os| && 0 <= j < |os| ==> os[j].frameIndex - os[i].frameIndex == j - i)
    && (forall o :: o in os ==>
          && (o.symbol, o.kind, o.stream, o.epoch) == (b.symbol, b.kind, b.stream, epoch)
          && o.first <= o.final && IsHex(o.recordDigest) && IsHex(o.digest))
  }

  predicate IsAt(o: Observation, p: Position) {
    (o.epoch, o.stream, o.frameIndex, o.recordDigest) == (p.epoch, p.stream, p.frameIndex, p.recordDigest)
  }

  /** The second observation repeats the end and the digest of the first, or covers the next number. */
  ghost predicate Continues(kind: StreamKind, o: Observation, next: Observation) {
    || (next.final == o.final && next.digest == o.digest)
    || (match kind
        case Depth => next.first <= o.final + 1 && o.final < next.final
        case Trade => next.first == o.final + 1 && next.final == o.final + 1)
  }

  ghost predicate Unbroken(kind: StreamKind, os: seq<Observation>) {
    forall i :: 0 < i < |os| ==> Continues(kind, os[i - 1], os[i])
  }

  /** Both sides end at the boundary with its digest, and the successor goes on right after it. */
  ghost predicate Meets(b: Boundary, p: Observation, s: Observation, first: Observation) {
    && IsAt(p, b.predecessorLast) && IsAt(s, b.successorBoundary) && IsAt(first, b.successorFirst)
    && p.final == b.sequence && s.final == b.sequence && p.digest == b.digest && s.digest == b.digest
    && (b.kind.Depth? ==> first.first <= b.sequence + 1 <= first.final)
    && (b.kind.Trade? ==> p.first == s.first == b.sequence && first.first == first.final == b.sequence + 1)
  }

  ghost predicate SplicesAt(b: Boundary, predecessor: seq<Observation>, successor: seq<Observation>, k: nat, i: nat, j: nat) {
    && k < |predecessor| && i < |successor| && j < |successor|
    && Meets(b, predecessor[k], successor[i], successor[j])
    && Unbroken(b.kind, predecessor[..k + 1]) && Unbroken(b.kind, successor[j..])
  }

  ghost predicate Selectable(b: Boundary, predecessor: seq<Observation>, successor: seq<Observation>) {
    && ValidBoundary(b)
    && Recorded(b, b.predecessorEpoch, predecessor) && Recorded(b, b.successorEpoch, successor)
    && exists k: nat, i: nat, j: nat :: SplicesAt(b, predecessor, successor, k, i, j)
  }

  // ----- the checks mean these conditions -----

  lemma DigestMeans(s: string)
    ensures IsDigest(s) <==> IsHex(s)
  {
    var hex := "0123456789abcdef";
    assert forall c :: c in hex <==> '0' <= c <= '9' || 'a' <= c <= 'f';
    if IsDigest(s) {
      forall c | c in s ensures c in hex {
        var i :| 0 <= i < |s| && s[i] == c;
      }
    }
    if IsHex(s) {
      forall i | 0 <= i < |s| ensures '0' <= s[i] <= '9' || 'a' <= s[i] <= 'f' {
        assert s[i] in s;
      }
    }
  }

  lemma BoundaryMeans(b: Boundary)
    ensures BoundaryOk(b) <==> ValidBoundary(b)
  {
    hide IsDigest, IsHex;
    DigestMeans(b.digest);
    DigestMeans(b.predecessorLast.recordDigest);
    DigestMeans(b.successorBoundary.recordDigest);
    DigestMeans(b.successorFirst.recordDigest);
  }

  lemma ObservationsMean(b: Boundary, os: seq<Observation>, epoch: string)
    ensures ObservationsOk(b, os, epoch) <==> Recorded(b, epoch, os)
  {
    hide IsDigest, IsHex;
    forall o | o in os
      ensures (IsDigest(o.recordDigest) <==> IsHex(o.recordDigest)) && (IsDigest(o.digest) <==> IsHex(o.digest))
    {
      DigestMeans(o.recordDigest);
      DigestMeans(o.digest);
    }
    if ObservationsOk(b, os, epoch) {
      forall i, j | 0 <= i < |os| && 0 <= j < |os| ensures os[j].frameIndex - os[i].frameIndex == j - i {
        FramesAreConsecutive(os, i);
        FramesAreConsecutive(os, j);
      }
    }
    if Recorded(b, epoch, os) {
      forall i | 0 <= i < |os| ensures ObservationOk(b, os[i], epoch) {
        assert os[i] in os;
      }
    }
  }

  lemma {:induction false} AtFrameMeans(os: seq<Observation>, frame: int)
    requires Consecutive(os)
    ensures AtFrame(os, frame).None? ==> forall k :: 0 <= k < |os| ==> os[k].frameIndex != frame
    ensures AtFrame(os, frame).Some? ==> AtFrame(os, frame).value in os && AtFrame(os, frame).value.frameIndex == frame
    decreases |os|
  {
    if os != [] && os[0].frameIndex != frame {
      assert Consecutive(os[1..]) by {
        forall i | 0 < i < |os[1..]| ensures os[1..][i].frameIndex == os[1..][i - 1].frameIndex + 1 {
          assert os[i + 1].frameIndex == os[i].frameIndex + 1;
        }
      }
      AtFrameMeans(os[1..], frame);
      forall k | 0 <= k < |os| && os[k].frameIndex == frame ensures AtFrame(os, frame).Some? {
        assert os[1..][k - 1] == os[k];
      }
    }
  }

  /** A position is found exactly where an observation is at it. */
  lemma PositionMeans(os: seq<Observation>, p: Position, k: nat)
    requires Consecutive(os) && k < |os|
    ensures IsAt(os[k], p) <==> FindPosition(os, p) == Some(os[k]) && os[k].frameIndex == p.frameIndex
  {
    hide AtFrame;
    AtFrameMeans(os, p.frameIndex);
    if AtFrame(os, p.frameIndex).Some? && os[k].frameIndex == p.frameIndex {
      var i :| 0 <= i < |os| && os[i] == AtFrame(os, p.frameIndex).value;
      FramesAreConsecutive(os, i);
      FramesAreConsecutive(os, k);
    }
  }

  lemma PositionPlace(os: seq<Observation>, p: Position) returns (k: nat)
    requires Consecutive(os) && FindPosition(os, p).Some?
    ensures k < |os| && FindPosition(os, p) == Some(os[k]) && IsAt(os[k], p)
  {
    hide AtFrame;
    AtFrameMeans(os, p.frameIndex);
    k :| 0 <= k < |os| && os[k] == AtFrame(os, p.frameIndex).value;
  }

  // ----- picking -----

  /** Picking depends on the last candidate only through its end and digest. */
  lemma {:induction false} PickExactly(kind: StreamKind, os: seq<Observation>)
    ensures Pick(kind, NOTHING, os).Ok? <==> Unbroken(kind, os)
    ensures Pick(kind, NOTHING, os).Ok? && os != [] ==>
      var selected := Pick(kind, NOTHING, os).value.selected;
      && selected != [] && selected[|selected| - 1].final == os[|os| - 1].final
      && selected[|selected| - 1].digest == os[|os| - 1].digest
  {
    if os != [] {
      var last := |os| - 1;
      var front := os[..last];
      PickExactly(kind, front);
      UnbrokenNext(kind, os);
    }
  }

  lemma UnbrokenNext(kind: StreamKind, os: seq<Observation>)
    requires os != []
    ensures
      var last := |os| - 1;
      Unbroken(kind, os) <==> Unbroken(kind, os[..last]) && (last > 0 ==> Continues(kind, os[last - 1], os[last]))
  {
    hide Continues;
    var last := |os| - 1;
    var front := os[..last];
    if Unbroken(kind, os) {
      forall i | 0 < i < last ensures Continues(kind, front[i - 1], front[i]) {
        assert Continues(kind, os[i - 1], os[i]);
      }
    }
    if Unbroken(kind, front) && (last > 0 ==> Continues(kind, os[last - 1], os[last])) {
      forall i | 0 < i < |os| ensures Continues(kind, os[i - 1], os[i]) {
        assert i < last ==> Continues(kind, front[i - 1], front[i]);
      }
    }
  }

  lemma UnbrokenConcat(kind: StreamKind, a: seq<Observation>, b: seq<Observation>)
    requires a != [] && b != []
    ensures Unbroken(kind, a + b) <==> Unbroken(kind, a) && Unbroken(kind, b) && Continues(kind, a[|a| - 1], b[0])
  {
    hide Continues;
    var all := a + b;
    if Unbroken(kind, all) {
      forall i | 0 < i < |a| ensures Continues(kind, a[i - 1], a[i]) {
        assert Continues(kind, all[i - 1], all[i]);
      }
      forall i | 0 < i < |b| ensures Continues(kind, b[i - 1], b[i]) {
        assert Continues(kind, all[|a| + i - 1], all[|a| + i]);
      }
      assert Continues(kind, all[|a| - 1], all[|a|]);
    }
    if Unbroken(kind, a) && Unbroken(kind, b) && Continues(kind, a[|a| - 1], b[0]) {
      forall i | 0 < i < |all| ensures Continues(kind, all[i - 1], all[i]) {
        if i < |a| {
          assert Continues(kind, a[i - 1], a[i]);
        } else if i > |a| {
          assert Continues(kind, b[i - |a| - 1], b[i - |a|]);
        }
      }
    }
  }

  /** The candidate does not end where the one before it ends. */
  predicate Advances(os: seq<Observation>, i: nat)
    requires i < |os|
  {
    i == 0 || os[i].final != os[i - 1].final
  }

  ghost predicate KeptAt(os: seq<Observation>, selected: seq<Observation>, at: seq<nat>) {
    && |at| == |selected|
    && (forall j :: 0 <= j < |at| ==> at[j] < |os| && selected[j] == os[at[j]])
    && (forall i, j :: 0 <= i < j < |at| ==> at[i] < at[j])
    && (forall i :: 0 <= i < |os| ==> (i in at <==> Advances(os, i)))
  }

  lemma KeptNext(os: seq<Observation>, selected: seq<Observation>, at: seq<nat>)
    requires os != [] && KeptAt(os[..|os| - 1], selected, at)
    ensures
      var last := |os| - 1;
      if Advances(os, last) then KeptAt(os, selected + [os[last]], at + [last as nat]) else KeptAt(os, selected, at)
  {
    var last := |os| - 1;
    var front := os[..last];
    forall i | 0 <= i < last ensures Advances(front, i) <==> Advances(os, i) {
    }
    assert last !in at;
    if Advances(os, last) {
      var more := at + [last as nat];
      forall i | 0 <= i < |os| ensures i in more <==> Advances(os, i) {
        assert i in more <==> i in at || i == last;
      }
    }
  }

  /** What one more candidate does to the selection. */
  lemma PickNext(kind: StreamKind, os: seq<Observation>)
    requires os != [] && Pick(kind, NOTHING, os).Ok?
    ensures Pick(kind, NOTHING, os[..|os| - 1]).Ok?
    ensures
      var last := |os| - 1;
      var before := Pick(kind, NOTHING, os[..last]).value.selected;
      Pick(kind, NOTHING, os).value.selected == if Advances(os, last) then before + [os[last]] else before
  {
    PickExactly(kind, os[..|os| - 1]);
  }

  /** The selection keeps exactly the candidates that advance, in order. */
  lemma {:induction false} PickedAre(kind: StreamKind, os: seq<Observation>) returns (at: seq<nat>)
    requires Pick(kind, NOTHING, os).Ok?
    ensures KeptAt(os, Pick(kind, NOTHING, os).value.selected, at)
  {
    at := [];
    if os != [] {
      hide Pick, KeptAt;
      var last := |os| - 1;
      PickNext(kind, os);
      at := PickedAre(kind, os[..last]);
      KeptNext(os, Pick(kind, NOTHING, os[..last]).value.selected, at);
      if Advances(os, last) {
        at := at + [last];
      }
    }
  }

  // ----- the verdict -----

  lemma ConvergenceMeans(b: Boundary, p: Observation, s: Observation, first: Observation)
    requires IsAt(p, b.predecessorLast) && IsAt(s, b.successorBoundary) && IsAt(first, b.successorFirst)
    ensures Convergent(b, p, s, first) <==> Meets(b, p, s, first)
    ensures Meets(b, p, s, first) ==> Continues(b.kind, p, first)
  {
  }

  lemma CandidatesMean(b: Boundary, predecessor: seq<Observation>, successor: seq<Observation>, k: nat, j: nat)
    requires Consecutive(predecessor) && Consecutive(successor) && k < |predecessor| && j < |successor|
    requires IsAt(predecessor[k], b.predecessorLast) && IsAt(successor[j], b.successorFirst)
    ensures Candidates(b, predecessor, successor) == predecessor[..k + 1] + successor[j..]
    ensures CountAbove(predecessor, b.predecessorLast.frameIndex) == |predecessor| - (k + 1)
    ensures CountBelow(successor, b.successorFirst.frameIndex) == j
  {
    hide AtFrame, UpTo, From, CountAbove, CountBelow;
    PositionMeans(predecessor, b.predecessorLast, k);
    PositionMeans(successor, b.successorFirst, j);
    PositionFound(predecessor, b.predecessorLast);
    PositionFound(successor, b.successorFirst);
    var k' := SplitAtFrame(predecessor, b.predecessorLast.frameIndex);
    var j' := SplitAtFrame(successor, b.successorFirst.frameIndex);
    FramesAreConsecutive(predecessor, k);
    FramesAreConsecutive(predecessor, k');
    FramesAreConsecutive(successor, j);
    FramesAreConsecutive(successor, j');
  }

  lemma SplicedIsUnbroken(b: Boundary, predecessor: seq<Observation>, successor: seq<Observation>, k: nat, i: nat, j: nat)
    requires Consecutive(predecessor) && Consecutive(successor) && k < |predecessor| && i < |successor| && j < |successor|
    requires Meets(b, predecessor[k], successor[i], successor[j])
    ensures
      Pick(b.kind, NOTHING, Candidates(b, predecessor, successor)).Ok? <==>
      Unbroken(b.kind, predecessor[..k + 1]) && Unbroken(b.kind, successor[j..])
  {
    hide Pick, Unbroken, Continues, Candidates, Consecutive;
    CandidatesMean(b, predecessor, successor, k, j);
    PickExactly(b.kind, predecessor[..k + 1] + successor[j..]);
    UnbrokenConcat(b.kind, predecessor[..k + 1], successor[j..]);
    ConvergenceMeans(b, predecessor[k], successor[i], successor[j]);
  }

  /** The checks pass exactly when the two lists splice at the boundary. */
  lemma AcceptedMeans(b: Boundary, predecessor: seq<Observation>, successor: seq<Observation>)
    requires Consecutive(predecessor) && Consecutive(successor)
    requires BoundaryOk(b) && ObservationsOk(b, predecessor, b.predecessorEpoch) && ObservationsOk(b, successor, b.successorEpoch)
    ensures Accepted(b, predecessor, successor) <==> exists k: nat, i: nat, j: nat :: SplicesAt(b, predecessor, successor, k, i, j)
  {
    hide BoundaryOk, ObservationsOk, FindPosition, Convergent, Pick, Candidates, Meets, Unbroken, Consecutive;
    if Accepted(b, predecessor, successor) {
      var k := PositionPlace(predecessor, b.predecessorLast);
      var i := PositionPlace(successor, b.successorBoundary);
      var j := PositionPlace(successor, b.successorFirst);
      ConvergenceMeans(b, predecessor[k], successor[i], successor[j]);
      SplicedIsUnbroken(b, predecessor, successor, k, i, j);
      assert SplicesAt(b, predecessor, successor, k, i, j);
    }
    if exists k: nat, i: nat, j: nat :: SplicesAt(b, predecessor, successor, k, i, j) {
      var k: nat, i: nat, j: nat :| SplicesAt(b, predecessor, successor, k, i, j);
      MeetsAt(b, predecessor[k], successor[i], successor[j]);
      PositionMeans(predecessor, b.predecessorLast, k);
      PositionMeans(successor, b.successorBoundary, i);
      PositionMeans(successor, b.successorFirst, j);
      ConvergenceMeans(b, predecessor[k], successor[i], successor[j]);
      SplicedIsUnbroken(b, predecessor, successor, k, i, j);
    }
  }

  lemma MeetsAt(b: Boundary, p: Observation, s: Observation, first: Observation)
    requires Meets(b, p, s, first)
    ensures IsAt(p, b.predecessorLast) && IsAt(s, b.successorBoundary) && IsAt(first, b.successorFirst)
  {
  }

  lemma RecordedIsConsecutive(b: Boundary, os: seq<Observation>, epoch: string)
    requires ObservationsOk(b, os, epoch)
    ensures Consecutive(os)
  {
  }

  /** A selection exists exactly when the boundary and both lists are well-formed and splice there. */
  lemma {:induction false} SelectsExactly(b: Boundary, predecessor: seq<Observation>, successor: seq<Observation>)
    ensures SelectCanonical(b, predecessor, successor).Ok? <==> Selectable(b, predecessor, successor)
  {
    hide BoundaryOk, ObservationsOk, ValidBoundary, Recorded, SelectCanonical, SplicesAt, FindPosition, Pick, Convergent;
    ClosingChecksNeverReject(b, predecessor, successor);
    BoundaryMeans(b);
    ObservationsMean(b, predecessor, b.predecessorEpoch);
    ObservationsMean(b, successor, b.successorEpoch);
    if BoundaryOk(b) && ObservationsOk(b, predecessor, b.predecessorEpoch) && ObservationsOk(b, successor, b.successorEpoch) {
      RecordedIsConsecutive(b, predecessor, b.predecessorEpoch);
      RecordedIsConsecutive(b, successor, b.successorEpoch);
      AcceptedMeans(b, predecessor, successor);
    }
  }

  /**
    What is selected: of the predecessor up to the boundary and the successor from its first
    selected frame, the observations that advance; the others of these are duplicates, and the
    rest of the inputs is overlap.
   */
  lemma {:induction false} SelectedAre(b: Boundary, predecessor: seq<Observation>, successor: seq<Observation>, k: nat, i: nat, j: nat)
    returns (at: seq<nat>)
    requires SelectCanonical(b, predecessor, successor).Ok? && SplicesAt(b, predecessor, successor, k, i, j)
    ensures
      var r, candidates := SelectCanonical(b, predecessor, successor).value, predecessor[..k + 1] + successor[j..];
      && KeptAt(candidates, r.selected, at) && r.duplicates == |candidates| - |r.selected|
      && r.overlap == |predecessor| + |successor| - |candidates|
  {
    hide BoundaryOk, ObservationsOk, FindPosition, Pick, Convergent, KeptAt, Unbroken, IsAt;
    RecordedIsConsecutive(b, predecessor, b.predecessorEpoch);
    RecordedIsConsecutive(b, successor, b.successorEpoch);
    CandidatesMean(b, predecessor, successor, k, j);
    at := PickedAre(b.kind, Candidates(b, predecessor, successor));
    PickedAccounts(b.kind, Candidates(b, predecessor, successor));
  }
}
