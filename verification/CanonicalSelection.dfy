/**
  Canonical selection across a handover boundary: predecessor observations up to the committed
  boundary, then successor observations from the first selected one.
 */
module CanonicalSelection {
  import opened Wrappers
  import opened Streams

  datatype Position = Position(epoch: string, stream: string, frameIndex: int, recordDigest: string)

  datatype Boundary = Boundary(
    boundaryId: string,
    symbol: string,
    kind: StreamKind,
    stream: string,
    predecessorEpoch: string,
    successorEpoch: string,
    sequence: int,
    digest: string,
    predecessorLast: Position,
    successorBoundary: Position,
    successorFirst: Position,
    predecessorDurableThrough: int,
    successorDurableThrough: int)

  datatype Observation = Observation(
    symbol: string,
    kind: StreamKind,
    stream: string,
    epoch: string,
    frameIndex: int,
    first: int,
    final: int,
    recordDigest: string,
    digest: string)

  datatype SelectError =
    | InvalidBoundary | InvalidObservations | PositionAbsent | NoConvergence
    | StaleOrConflicting | SequenceGap | TradeNotContiguous
    | EmptySelection | LacksOneSide | SpliceMismatch

  predicate IsDigest(s: string) {
    |s| == 64 && forall i :: 0 <= i < |s| ==> '0' <= s[i] <= '9' || 'a' <= s[i] <= 'f'
  }

  /** The lifecycle checks of `HandoverBoundaryV1.validate`. */
  predicate BoundaryOk(b: Boundary) {
    && b.boundaryId != "" && b.symbol in {"BTCUSDT", "ETHUSDT"}
    && b.predecessorEpoch != "" && b.successorEpoch != "" && b.predecessorEpoch != b.successorEpoch
    && IsDigest(b.digest) && IsDigest(b.predecessorLast.recordDigest)
    && IsDigest(b.successorBoundary.recordDigest) && IsDigest(b.successorFirst.recordDigest)
    && b.predecessorLast.epoch == b.predecessorEpoch && b.predecessorLast.stream == b.stream
    && b.successorBoundary.epoch == b.successorEpoch && b.successorBoundary.stream == b.stream
    && b.successorFirst.epoch == b.successorEpoch && b.successorFirst.stream == b.stream
    && b.successorBoundary.frameIndex < b.successorFirst.frameIndex
    && b.predecessorLast.frameIndex <= b.predecessorDurableThrough
    && b.successorFirst.frameIndex <= b.successorDurableThrough
  }

  predicate ObservationOk(b: Boundary, o: Observation, epoch: string) {
    && o.symbol == b.symbol && o.kind == b.kind && o.stream == b.stream && o.epoch == epoch
    && o.first <= o.final
    && IsDigest(o.recordDigest) && IsDigest(o.digest)
  }

  /** `_validate_observations`: one source, well-formed, with consecutive frames. */
  predicate ObservationsOk(b: Boundary, os: seq<Observation>, epoch: string) {
    && os != []
    && (forall i :: 0 <= i < |os| ==> ObservationOk(b, os[i], epoch))
    && (forall i :: 0 < i < |os| ==> os[i].frameIndex == os[i - 1].frameIndex + 1)
  }

  method ValidateObservations(b: Boundary, os: seq<Observation>, epoch: string) returns (ok: bool)
    ensures ok == ObservationsOk(b, os, epoch)
  {
    if os == [] {
      return false;
    }
    var previous: Option<int> := None;
    for i := 0 to |os|
      invariant forall j :: 0 <= j < i ==> ObservationOk(b, os[j], epoch)
      invariant forall j :: 0 < j < i ==> os[j].frameIndex == os[j - 1].frameIndex + 1
      invariant previous == if i == 0 then None else Some(os[i - 1].frameIndex)
    {
      if !ObservationOk(b, os[i], epoch) {
        return false;
      }
      if previous.Some? && os[i].frameIndex != previous.value + 1 {
        assert i > 0;
        return false;
      }
      previous := Some(os[i].frameIndex);
    }
    return true;
  }

  /** The first observation at a frame. */
  function AtFrame(os: seq<Observation>, frame: int): Option<Observation> {
    if os == [] then None
    else if os[0].frameIndex == frame then Some(os[0])
    else AtFrame(os[1..], frame)
  }

  function FindPosition(os: seq<Observation>, p: Position): Option<Observation> {
    var found := AtFrame(os, p.frameIndex);
    if found.Some? && found.value.epoch == p.epoch && found.value.stream == p.stream
       && found.value.recordDigest == p.recordDigest
    then found else None
  }

  /** `_validate_boundary_observations`. */
  predicate Convergent(b: Boundary, p: Observation, s: Observation, first: Observation) {
    && p.final == b.sequence && s.final == b.sequence
    && p.digest == b.digest && s.digest == b.digest
    && (match b.kind
        case Depth => first.first <= b.sequence + 1 <= first.final
        case Trade =>
          && p.first == b.sequence && s.first == b.sequence
          && first.first == b.sequence + 1 && first.final == b.sequence + 1)
  }

  // ----- sequence selection -----

  datatype Picked = Picked(selected: seq<Observation>, duplicates: nat)

  /** One iteration of `_validate_and_select_sequence`. */
  function PickOne(kind: StreamKind, st: Picked, o: Observation): Result<Picked, SelectError> {
    if st.selected == [] then Ok(Picked([o], st.duplicates))
    else
      var previous := st.selected[|st.selected| - 1];
      var next := previous.final + 1;
      if o.final < next then
        if o.final == previous.final && o.digest == previous.digest
        then Ok(Picked(st.selected, st.duplicates + 1))
        else Err(StaleOrConflicting)
      else if o.first > next then Err(SequenceGap)
      else if kind == Trade && (o.first != next || o.final != next) then Err(TradeNotContiguous)
      else Ok(Picked(st.selected + [o], st.duplicates))
  }

  function Pick(kind: StreamKind, st: Picked, os: seq<Observation>): Result<Picked, SelectError> {
    if os == [] then Ok(st)
    else
      var last := |os| - 1;
      var before := Pick(kind, st, os[..last]);
      if before.Err? then before else PickOne(kind, before.value, os[last])
  }

  const NOTHING := Picked([], 0)

  method SelectSequence(kind: StreamKind, candidates: seq<Observation>) returns (r: Result<Picked, SelectError>)
    ensures r == Pick(kind, NOTHING, candidates)
  {
    var selected, duplicates := [], 0;
    for i := 0 to |candidates|
      invariant duplicates >= 0
      invariant Pick(kind, NOTHING, candidates[..i]) == Ok(Picked(selected, duplicates))
    {
      assert candidates[..i + 1][..i] == candidates[..i];
      PickStops(kind, candidates, i + 1);
      var o := candidates[i];
      if selected == [] {
        selected := [o];
      } else {
        var previous := selected[|selected| - 1];
        var next := previous.final + 1;
        if o.final < next {
          if o.final == previous.final && o.digest == previous.digest {
            duplicates := duplicates + 1;
          } else {
            return Err(StaleOrConflicting);
          }
        } else {
          if o.first > next {
            return Err(SequenceGap);
          }
          if kind == Trade && (o.first != next || o.final != next) {
            return Err(TradeNotContiguous);
          }
          selected := selected + [o];
        }
      }
    }
    assert candidates[..|candidates|] == candidates;
    r := Ok(Picked(selected, duplicates));
  }

  lemma {:induction false} PickStops(kind: StreamKind, os: seq<Observation>, i: nat)
    requires i <= |os|
    ensures Pick(kind, NOTHING, os[..i]).Err? ==> Pick(kind, NOTHING, os) == Pick(kind, NOTHING, os[..i])
  {
    if i < |os| {
      var last := |os| - 1;
      assert os[..last][..i] == os[..i];
      PickStops(kind, os[..last], i);
    } else {
      assert os[..i] == os;
    }
  }

  lemma {:induction false} PickConcat(kind: StreamKind, st: Picked, a: seq<Observation>, b: seq<Observation>)
    ensures Pick(kind, st, a + b) ==
            if Pick(kind, st, a).Err? then Pick(kind, st, a) else Pick(kind, Pick(kind, st, a).value, b)
  {
    if b == [] {
      assert a + b == a;
    } else {
      var last := |b| - 1;
      PickConcat(kind, st, a, b[..last]);
      assert (a + b)[..|a + b| - 1] == a + b[..last];
    }
  }

  // ----- selection -----

  function UpTo(os: seq<Observation>, frame: int): seq<Observation> {
    if os == [] then []
    else (if os[0].frameIndex <= frame then [os[0]] else []) + UpTo(os[1..], frame)
  }

  function From(os: seq<Observation>, frame: int): seq<Observation> {
    if os == [] then []
    else (if os[0].frameIndex >= frame then [os[0]] else []) + From(os[1..], frame)
  }

  function CountAbove(os: seq<Observation>, frame: int): nat {
    if os == [] then 0 else (if os[0].frameIndex > frame then 1 else 0) + CountAbove(os[1..], frame)
  }

  function CountBelow(os: seq<Observation>, frame: int): nat {
    if os == [] then 0 else (if os[0].frameIndex < frame then 1 else 0) + CountBelow(os[1..], frame)
  }

  function OfEpoch(os: seq<Observation>, epoch: string): seq<Observation> {
    if os == [] then []
    else (if os[0].epoch == epoch then [os[0]] else []) + OfEpoch(os[1..], epoch)
  }

  datatype Selection = Selection(selected: seq<Observation>, overlap: nat, duplicates: nat)

  function Candidates(b: Boundary, predecessor: seq<Observation>, successor: seq<Observation>): seq<Observation> {
    UpTo(predecessor, b.predecessorLast.frameIndex) + From(successor, b.successorFirst.frameIndex)
  }

  /** `select_canonical`. */
  function SelectCanonical(b: Boundary, predecessor: seq<Observation>, successor: seq<Observation>)
    : Result<Selection, SelectError>
  {
    if !BoundaryOk(b) then Err(InvalidBoundary)
    else if !ObservationsOk(b, predecessor, b.predecessorEpoch)
            || !ObservationsOk(b, successor, b.successorEpoch) then Err(InvalidObservations)
    else
      var p := FindPosition(predecessor, b.predecessorLast);
      var s := FindPosition(successor, b.successorBoundary);
      var first := FindPosition(successor, b.successorFirst);
      if p.None? || s.None? || first.None? then Err(PositionAbsent)
      else if !Convergent(b, p.value, s.value, first.value) then Err(NoConvergence)
      else
        var picked := Pick(b.kind, NOTHING, Candidates(b, predecessor, successor));
        if picked.Err? then Err(picked.error)
        else Assemble(b, picked.value, CountAbove(predecessor, b.predecessorLast.frameIndex)
                                       + CountBelow(successor, b.successorFirst.frameIndex))
  }

  /** The closing emptiness and splice checks. */
  function Assemble(b: Boundary, picked: Picked, overlap: nat): Result<Selection, SelectError> {
    var ps, ss := OfEpoch(picked.selected, b.predecessorEpoch), OfEpoch(picked.selected, b.successorEpoch);
    if picked.selected == [] then Err(EmptySelection)
    else if ps == [] || ss == [] then Err(LacksOneSide)
    else if ps[|ps| - 1].final != b.sequence || ss[0].frameIndex != b.successorFirst.frameIndex then
      Err(SpliceMismatch)
    else Ok(Selection(picked.selected, overlap, picked.duplicates))
  }

  // ----- consecutive frames -----

  ghost predicate Consecutive(os: seq<Observation>) {
    forall i :: 0 < i < |os| ==> os[i].frameIndex == os[i - 1].frameIndex + 1
  }

  lemma {:induction false} FramesAreConsecutive(os: seq<Observation>, i: nat)
    requires Consecutive(os) && i < |os|
    ensures os[i].frameIndex == os[0].frameIndex + i
  {
    if i > 0 {
      FramesAreConsecutive(os, i - 1);
    }
  }

  /** A frame that is present splits the list into the frames before, at and after it. */
  lemma {:induction false} SplitAtFrame(os: seq<Observation>, frame: int) returns (k: nat)
    requires Consecutive(os) && AtFrame(os, frame).Some?
    ensures k < |os| && os[k] == AtFrame(os, frame).value && os[k].frameIndex == frame
    ensures UpTo(os, frame) == os[..k + 1] && From(os, frame) == os[k..]
    ensures CountAbove(os, frame) == |os| - (k + 1) && CountBelow(os, frame) == k
    decreases |os|
  {
    if os[0].frameIndex == frame {
      k := 0;
      forall i | 0 < i < |os| ensures os[i].frameIndex > frame {
        FramesAreConsecutive(os, i);
      }
      AllAbove(os[1..], frame);
      assert os == [os[0]] + os[1..];
    } else {
      assert Consecutive(os[1..]) by {
        forall i | 0 < i < |os[1..]| ensures os[1..][i].frameIndex == os[1..][i - 1].frameIndex + 1 {
          assert os[i + 1].frameIndex == os[i].frameIndex + 1;
        }
      }
      var k' := SplitAtFrame(os[1..], frame);
      k := k' + 1;
      FramesAreConsecutive(os, k);
      assert os[..k + 1] == [os[0]] + os[1..][..k' + 1];
      assert os[k..] == os[1..][k'..];
    }
  }

  lemma {:induction false} AllAbove(os: seq<Observation>, frame: int)
    requires forall i :: 0 <= i < |os| ==> os[i].frameIndex > frame
    ensures UpTo(os, frame) == [] && From(os, frame) == os
    ensures CountAbove(os, frame) == |os| && CountBelow(os, frame) == 0
    decreases |os|
  {
    if os != [] {
      AllAbove(os[1..], frame);
      assert os == [os[0]] + os[1..];
    }
  }

  // ----- what a selection is -----

  /** `o` covers the sequence number after the last one of `previous`. */
  ghost predicate Follows(kind: StreamKind, previous: Observation, o: Observation) {
    && o.first <= previous.final + 1 <= o.final
    && (kind == Trade ==> o.first == o.final == previous.final + 1)
  }

  ghost predicate Contiguous(kind: StreamKind, os: seq<Observation>) {
    forall i :: 0 < i < |os| ==> Follows(kind, os[i - 1], os[i])
  }

  lemma ContiguousAppend(kind: StreamKind, os: seq<Observation>, o: Observation)
    requires Contiguous(kind, os) && (os != [] ==> Follows(kind, os[|os| - 1], o))
    ensures Contiguous(kind, os + [o])
  {
    hide Follows;
    var more := os + [o];
    forall i | 0 < i < |more| ensures Follows(kind, more[i - 1], more[i]) {
      if i < |os| {
        assert Follows(kind, os[i - 1], os[i]);
      }
    }
  }

  lemma ContiguousPrefix(kind: StreamKind, os: seq<Observation>, k: nat)
    requires Contiguous(kind, os) && k <= |os|
    ensures Contiguous(kind, os[..k])
  {
    hide Follows;
    forall i | 0 < i < k ensures Follows(kind, os[..k][i - 1], os[..k][i]) {
      assert Follows(kind, os[i - 1], os[i]);
    }
  }

  lemma {:induction false} PickedIsContiguous(kind: StreamKind, os: seq<Observation>)
    requires Pick(kind, NOTHING, os).Ok?
    ensures Contiguous(kind, Pick(kind, NOTHING, os).value.selected)
  {
    hide Contiguous;
    NothingIsContiguous(kind);
    if os != [] {
      var last := |os| - 1;
      PickedIsContiguous(kind, os[..last]);
      assert [] + [os[last]] == [os[last]];
      ContiguousAppend(kind, [], os[last]);
      var st := Pick(kind, NOTHING, os[..last]).value;
      if st.selected != [] && Follows(kind, st.selected[|st.selected| - 1], os[last]) {
        ContiguousAppend(kind, st.selected, os[last]);
      }
    }
  }

  lemma NothingIsContiguous(kind: StreamKind)
    ensures Contiguous(kind, [])
  {
  }

  lemma {:induction false} PickedAccounts(kind: StreamKind, os: seq<Observation>)
    requires Pick(kind, NOTHING, os).Ok?
    ensures
      var st := Pick(kind, NOTHING, os).value;
      && |st.selected| + st.duplicates == |os|
      && (os != [] ==> st.selected != [] && st.selected[0] == os[0]
                       && st.selected[|st.selected| - 1].final == os[|os| - 1].final)
      && (forall i :: 0 <= i < |st.selected| ==> st.selected[i] in os)
  {
    if os != [] {
      var last := |os| - 1;
      PickedAccounts(kind, os[..last]);
      assert os == os[..last] + [os[last]];
    }
  }

  ghost predicate FramesIncrease(os: seq<Observation>) {
    forall i, j :: 0 <= i < j < |os| ==> os[i].frameIndex < os[j].frameIndex
  }

  /** Some observation of the list ends where this one ends, with the same digest. */
  ghost predicate Represented(os: seq<Observation>, o: Observation) {
    exists i :: 0 <= i < |os| && os[i].final == o.final && os[i].digest == o.digest
  }

  lemma ConsecutiveIncreases(os: seq<Observation>)
    requires Consecutive(os)
    ensures FramesIncrease(os)
  {
    forall i, j | 0 <= i < j < |os| ensures os[i].frameIndex < os[j].frameIndex {
      FramesAreConsecutive(os, i);
      FramesAreConsecutive(os, j);
    }
  }

  /** One candidate: appended, or represented by the last one selected. */
  lemma PickedStep(kind: StreamKind, st: Picked, o: Observation)
    requires PickOne(kind, st, o).Ok?
    ensures
      var after := PickOne(kind, st, o).value.selected;
      && (after == st.selected || after == st.selected + [o])
      && Represented(after, o)
  {
    var after := PickOne(kind, st, o).value.selected;
    assert after[|after| - 1].final == o.final && after[|after| - 1].digest == o.digest;
  }

  lemma RepresentedStill(before: seq<Observation>, after: seq<Observation>, o: Observation)
    requires Represented(before, o) && before <= after
    ensures Represented(after, o)
  {
    var i :| 0 <= i < |before| && before[i].final == o.final && before[i].digest == o.digest;
    assert after[i] == before[i];
  }

  lemma AppendFrame(os: seq<Observation>, o: Observation)
    requires FramesIncrease(os) && forall x :: x in os ==> x.frameIndex < o.frameIndex
    ensures FramesIncrease(os + [o])
  {
    assert forall i :: 0 <= i < |os| ==> os[i] in os;
  }

  /** Picking on appends inputs only, in input order. */
  lemma {:induction false} AppendedInOrder(kind: StreamKind, st: Picked, os: seq<Observation>)
    requires Pick(kind, st, os).Ok? && FramesIncrease(os)
    ensures
      var r := Pick(kind, st, os).value;
      && st.selected <= r.selected
      && (forall o :: o in r.selected[|st.selected|..] ==> o in os)
      && FramesIncrease(r.selected[|st.selected|..])
  {
    hide PickOne, Represented;
    var r := Pick(kind, st, os).value;
    if os == [] {
      assert r.selected[|st.selected|..] == [];
    } else {
      var last, n := |os| - 1, |st.selected|;
      AppendedInOrder(kind, st, os[..last]);
      var before := Pick(kind, st, os[..last]).value;
      PickedStep(kind, before, os[last]);
      if r.selected != before.selected {
        assert r.selected[n..] == before.selected[n..] + [os[last]];
        AppendFrame(before.selected[n..], os[last]);
      }
    }
  }

  /** What picking drops repeats something it keeps. */
  lemma {:induction false} NothingIsLost(kind: StreamKind, st: Picked, os: seq<Observation>)
    requires Pick(kind, st, os).Ok?
    ensures
      var r := Pick(kind, st, os).value;
      st.selected <= r.selected && forall o :: o in os ==> Represented(r.selected, o)
  {
    hide PickOne, Represented;
    if os != [] {
      var last := |os| - 1;
      NothingIsLost(kind, st, os[..last]);
      var before, r := Pick(kind, st, os[..last]).value, Pick(kind, st, os).value;
      PickedStep(kind, before, os[last]);
      forall o | o in os ensures Represented(r.selected, o) {
        if o in os[..last] {
          RepresentedStill(before.selected, r.selected, o);
        }
      }
    }
  }

  /** Picking on from a non-empty selection only appends, and appends a first record that advances. */
  lemma {:induction false} PickAppends(kind: StreamKind, st: Picked, os: seq<Observation>)
    requires st.selected != [] && os != []
    requires os[0].final > st.selected[|st.selected| - 1].final
    requires Pick(kind, st, os).Ok?
    ensures
      var r := Pick(kind, st, os).value;
      && |st.selected| < |r.selected| && r.selected[..|st.selected|] == st.selected
      && r.selected[|st.selected|] == os[0]
      && (forall i :: |st.selected| <= i < |r.selected| ==> r.selected[i] in os)
  {
    var last := |os| - 1;
    assert os == os[..last] + [os[last]];
    if last == 0 {
      assert os[..0] == [];
    } else {
      PickAppends(kind, st, os[..last]);
    }
  }

  lemma {:induction false} OfEpochAll(os: seq<Observation>, epoch: string)
    requires forall i :: 0 <= i < |os| ==> os[i].epoch == epoch
    ensures OfEpoch(os, epoch) == os
    decreases |os|
  {
    if os != [] {
      OfEpochAll(os[1..], epoch);
      assert os == [os[0]] + os[1..];
    }
  }

  lemma {:induction false} OfEpochNone(os: seq<Observation>, epoch: string)
    requires forall i :: 0 <= i < |os| ==> os[i].epoch != epoch
    ensures OfEpoch(os, epoch) == []
    decreases |os|
  {
    if os != [] {
      OfEpochNone(os[1..], epoch);
    }
  }

  lemma {:induction false} OfEpochConcat(a: seq<Observation>, b: seq<Observation>, epoch: string)
    ensures OfEpoch(a + b, epoch) == OfEpoch(a, epoch) + OfEpoch(b, epoch)
    decreases |a|
  {
    if a == [] {
      assert a + b == b;
    } else {
      OfEpochConcat(a[1..], b, epoch);
      assert (a + b)[1..] == a[1..] + b;
    }
  }

  /** The selection is a run of predecessor observations and then a run of successor ones. */
  ghost predicate TwoRuns(os: seq<Observation>, m: int, predecessorEpoch: string, successorEpoch: string) {
    && 0 < m < |os|
    && (forall i :: 0 <= i < m ==> os[i].epoch == predecessorEpoch)
    && (forall i :: m <= i < |os| ==> os[i].epoch == successorEpoch)
  }

  /**
    The selection is a predecessor prefix and then a successor suffix: its first `m` observations
    are inputs of the predecessor up to the boundary frame, the others inputs of the successor
    from the committed frame on, each run in input order, and every input on its side of the
    boundary is selected or repeats the end and the digest of a selected one.
   */
  ghost predicate Splices(b: Boundary, predecessor: seq<Observation>, successor: seq<Observation>, os: seq<Observation>, m: int) {
    && TwoRuns(os, m, b.predecessorEpoch, b.successorEpoch)
    && (forall i :: 0 <= i < m ==> os[i] in predecessor && os[i].frameIndex <= b.predecessorLast.frameIndex)
    && (forall i :: m <= i < |os| ==> os[i] in successor && os[i].frameIndex >= b.successorFirst.frameIndex)
    && FramesIncrease(os[..m]) && FramesIncrease(os[m..])
    && (forall o :: o in predecessor && o.frameIndex <= b.predecessorLast.frameIndex ==> Represented(os, o))
    && (forall o :: o in successor && o.frameIndex >= b.successorFirst.frameIndex ==> Represented(os, o))
  }

  /** Every check before the closing ones. */
  ghost predicate Accepted(b: Boundary, predecessor: seq<Observation>, successor: seq<Observation>) {
    && BoundaryOk(b)
    && ObservationsOk(b, predecessor, b.predecessorEpoch)
    && ObservationsOk(b, successor, b.successorEpoch)
    && FindPosition(predecessor, b.predecessorLast).Some?
    && FindPosition(successor, b.successorBoundary).Some?
    && FindPosition(successor, b.successorFirst).Some?
    && Convergent(b, FindPosition(predecessor, b.predecessorLast).value,
                  FindPosition(successor, b.successorBoundary).value,
                  FindPosition(successor, b.successorFirst).value)
    && Pick(b.kind, NOTHING, Candidates(b, predecessor, successor)).Ok?
  }

  lemma {:induction false} RunsOfSelection(b: Boundary, predecessor: seq<Observation>, successor: seq<Observation>) returns (m: nat)
    requires Accepted(b, predecessor, successor)
    ensures
      var picked := Pick(b.kind, NOTHING, Candidates(b, predecessor, successor)).value;
      && Splices(b, predecessor, successor, picked.selected, m)
      && picked.selected[m - 1].final == b.sequence
      && picked.selected[m].frameIndex == b.successorFirst.frameIndex
      && |picked.selected| + picked.duplicates
         + CountAbove(predecessor, b.predecessorLast.frameIndex)
         + CountBelow(successor, b.successorFirst.frameIndex) == |predecessor| + |successor|
  {
    hide BoundaryOk, ObservationsOk, Pick, Represented, FramesIncrease, Convergent, FindPosition, Splices,
         UpTo, From, AtFrame, CountAbove, CountBelow, Consecutive;
    SourceFacts(b, predecessor, b.predecessorEpoch);
    SourceFacts(b, successor, b.successorEpoch);
    PositionFound(predecessor, b.predecessorLast);
    PositionFound(successor, b.successorFirst);
    var k := SplitAtFrame(predecessor, b.predecessorLast.frameIndex);
    var j := SplitAtFrame(successor, b.successorFirst.frameIndex);
    ConvergenceFacts(b, predecessor[k], FindPosition(successor, b.successorBoundary).value, successor[j]);
    m := JoinRuns(b.kind, predecessor, k, successor, j);
    RunsSplice(b, predecessor, k, successor, j, Pick(b.kind, NOTHING, predecessor[..k + 1] + successor[j..]).value.selected, m);
  }

  lemma PositionFound(os: seq<Observation>, p: Position)
    requires FindPosition(os, p).Some?
    ensures AtFrame(os, p.frameIndex) == FindPosition(os, p)
  {
  }

  lemma RunsSplice(b: Boundary, predecessor: seq<Observation>, k: nat, successor: seq<Observation>, j: nat, os: seq<Observation>, m: nat)
    requires Consecutive(predecessor) && k < |predecessor| && predecessor[k].frameIndex == b.predecessorLast.frameIndex
    requires Consecutive(successor) && j < |successor| && successor[j].frameIndex == b.successorFirst.frameIndex
    requires forall o :: o in predecessor ==> o.epoch == b.predecessorEpoch
    requires forall o :: o in successor ==> o.epoch == b.successorEpoch
    requires 0 < m < |os| && FramesIncrease(os[..m]) && FramesIncrease(os[m..])
    requires forall i :: 0 <= i < m ==> os[i] in predecessor[..k + 1]
    requires forall i :: m <= i < |os| ==> os[i] in successor[j..]
    requires forall o :: o in predecessor[..k + 1] || o in successor[j..] ==> Represented(os, o)
    ensures Splices(b, predecessor, successor, os, m)
  {
    hide Represented, FramesIncrease, Consecutive;
    SidesOfBoundary(predecessor, k);
    SidesOfBoundary(successor, j);
  }

  lemma SourceFacts(b: Boundary, os: seq<Observation>, epoch: string)
    requires ObservationsOk(b, os, epoch)
    ensures Consecutive(os) && forall o :: o in os ==> o.epoch == epoch
  {
  }

  lemma ConvergenceFacts(b: Boundary, p: Observation, s: Observation, first: Observation)
    requires Convergent(b, p, s, first)
    ensures p.final == b.sequence < first.final
  {
  }

  /** Picking over both sides gives the run of the left one and then a run of the right one. */
  lemma JoinRuns(kind: StreamKind, predecessor: seq<Observation>, k: nat, successor: seq<Observation>, j: nat) returns (m: nat)
    requires Consecutive(predecessor) && k < |predecessor| && Consecutive(successor) && j < |successor|
    requires Pick(kind, NOTHING, predecessor[..k + 1] + successor[j..]).Ok?
    requires predecessor[k].final < successor[j].final
    ensures
      var left, right := predecessor[..k + 1], successor[j..];
      var picked := Pick(kind, NOTHING, left + right).value;
      && 0 < m < |picked.selected|
      && picked.selected[m - 1].final == predecessor[k].final && picked.selected[m] == successor[j]
      && (forall i :: 0 <= i < m ==> picked.selected[i] in left)
      && (forall i :: m <= i < |picked.selected| ==> picked.selected[i] in right)
      && FramesIncrease(picked.selected[..m]) && FramesIncrease(picked.selected[m..])
      && (forall o :: o in left || o in right ==> Represented(picked.selected, o))
      && |picked.selected| + picked.duplicates == |left| + |right|
  {
    hide Pick, Represented, FramesIncrease, Consecutive;
    var left, right := predecessor[..k + 1], successor[j..];
    PickConcat(kind, NOTHING, left, right);
    PickedAccounts(kind, left);
    PickedAccounts(kind, left + right);
    var before := Pick(kind, NOTHING, left).value;
    PickAppends(kind, before, right);
    OrderOfRuns(kind, predecessor, k, successor, j);
    m := |before.selected|;
    var selected := Pick(kind, NOTHING, left + right).value.selected;
    assert selected[..m] == before.selected;
    forall i | 0 <= i < m ensures selected[i] in left {
      assert selected[i] == before.selected[i];
    }
    assert selected[m - 1] == before.selected[m - 1];
  }

  /** The observations up to position `k` are those with frames up to that of `k`. */
  lemma SidesOfBoundary(os: seq<Observation>, k: nat)
    requires Consecutive(os) && k < |os|
    ensures forall o :: o in os[..k + 1] ==> o in os && o.frameIndex <= os[k].frameIndex
    ensures forall o :: o in os && o.frameIndex <= os[k].frameIndex ==> o in os[..k + 1]
    ensures forall o :: o in os[k..] ==> o in os && o.frameIndex >= os[k].frameIndex
    ensures forall o :: o in os && o.frameIndex >= os[k].frameIndex ==> o in os[k..]
  {
    ConsecutiveIncreases(os);
    forall o | o in os ensures o.frameIndex <= os[k].frameIndex <==> o in os[..k + 1] {
      var i :| 0 <= i < |os| && os[i] == o;
      if i <= k {
        assert os[..k + 1][i] == o;
      }
    }
    forall o | o in os ensures o.frameIndex >= os[k].frameIndex <==> o in os[k..] {
      var i :| 0 <= i < |os| && os[i] == o;
      if i >= k {
        assert os[k..][i - k] == o;
      }
    }
  }

  lemma OrderOfRuns(kind: StreamKind, predecessor: seq<Observation>, k: nat, successor: seq<Observation>, j: nat)
    requires Consecutive(predecessor) && k < |predecessor| && Consecutive(successor) && j < |successor|
    requires Pick(kind, NOTHING, predecessor[..k + 1]).Ok?
    requires Pick(kind, Pick(kind, NOTHING, predecessor[..k + 1]).value, successor[j..]).Ok?
    ensures
      var before := Pick(kind, NOTHING, predecessor[..k + 1]).value;
      var selected := Pick(kind, before, successor[j..]).value.selected;
      && before.selected <= selected
      && FramesIncrease(before.selected) && FramesIncrease(selected[|before.selected|..])
      && (forall o :: o in predecessor[..k + 1] || o in successor[j..] ==> Represented(selected, o))
  {
    hide Pick, Represented;
    var left, right := predecessor[..k + 1], successor[j..];
    ConsecutiveIncreases(predecessor);
    ConsecutiveIncreases(successor);
    AppendedInOrder(kind, NOTHING, left);
    NothingIsLost(kind, NOTHING, left);
    var before := Pick(kind, NOTHING, left).value;
    assert before.selected[0..] == before.selected;
    AppendedInOrder(kind, before, right);
    NothingIsLost(kind, before, right);
    var selected := Pick(kind, before, right).value.selected;
    forall o | o in left ensures Represented(selected, o) {
      RepresentedStill(before.selected, selected, o);
    }
  }

  /** Once everything before them passes, the closing emptiness and splice checks cannot reject. */
  lemma {:induction false} ClosingChecksNeverReject(b: Boundary, predecessor: seq<Observation>, successor: seq<Observation>)
    ensures SelectCanonical(b, predecessor, successor).Ok? <==> Accepted(b, predecessor, successor)
  {
    hide BoundaryOk, ObservationsOk, FindPosition, Convergent, Pick, Candidates, CountAbove, CountBelow, Splices;
    if Accepted(b, predecessor, successor) {
      var m := RunsOfSelection(b, predecessor, successor);
      var picked := Pick(b.kind, NOTHING, Candidates(b, predecessor, successor)).value;
      SplicesAreRuns(b, predecessor, successor, picked.selected, m);
      EpochsDiffer(b);
      SplitByEpoch(picked.selected, m, b.predecessorEpoch, b.successorEpoch);
    }
  }

  lemma SplicesAreRuns(b: Boundary, predecessor: seq<Observation>, successor: seq<Observation>, os: seq<Observation>, m: int)
    requires Splices(b, predecessor, successor, os, m)
    ensures TwoRuns(os, m, b.predecessorEpoch, b.successorEpoch)
  {
    hide Represented, FramesIncrease;
  }

  lemma EpochsDiffer(b: Boundary)
    requires BoundaryOk(b)
    ensures b.predecessorEpoch != b.successorEpoch
  {
  }

  lemma SplitByEpoch(os: seq<Observation>, m: nat, predecessorEpoch: string, successorEpoch: string)
    requires TwoRuns(os, m, predecessorEpoch, successorEpoch) && predecessorEpoch != successorEpoch
    ensures OfEpoch(os, predecessorEpoch) == os[..m] && OfEpoch(os, successorEpoch) == os[m..]
  {
    assert os == os[..m] + os[m..];
    OfEpochConcat(os[..m], os[m..], predecessorEpoch);
    OfEpochConcat(os[..m], os[m..], successorEpoch);
    OfEpochAll(os[..m], predecessorEpoch);
    OfEpochNone(os[m..], predecessorEpoch);
    OfEpochNone(os[..m], successorEpoch);
    OfEpochAll(os[m..], successorEpoch);
  }

  /** Some selected observation covers the sequence number. */
  ghost predicate CoveredAt(os: seq<Observation>, n: int) {
    exists i :: 0 <= i < |os| && os[i].first <= n <= os[i].final
  }

  lemma {:induction false} ContiguousCovers(kind: StreamKind, os: seq<Observation>, n: int)
    requires os != [] && Contiguous(kind, os)
    requires os[0].first <= n <= os[|os| - 1].final
    ensures CoveredAt(os, n)
  {
    var last := |os| - 1;
    if os[last].first <= n {
    } else {
      assert last > 0;
      assert Follows(kind, os[last - 1], os[last]);
      ContiguousPrefix(kind, os, last);
      ContiguousCovers(kind, os[..last], n);
      var i :| 0 <= i < last && os[..last][i].first <= n <= os[..last][i].final;
      assert os[i] == os[..last][i];
    }
  }

  /**
    A canonical selection is a predecessor run ending at the boundary and a successor run starting
    at the committed frame; it covers every sequence number from first to last, trades step by
    exactly one, and every input observation is selected, excluded as overlap or a duplicate.
   */
  lemma {:induction false} SelectionIsCanonical(b: Boundary, predecessor: seq<Observation>, successor: seq<Observation>) returns (m: nat)
    requires SelectCanonical(b, predecessor, successor).Ok?
    ensures
      var r := SelectCanonical(b, predecessor, successor).value;
      && Splices(b, predecessor, successor, r.selected, m)
      && r.selected[m - 1].final == b.sequence
      && r.selected[m].frameIndex == b.successorFirst.frameIndex
      && Contiguous(b.kind, r.selected)
      && (forall n :: r.selected[0].first <= n <= r.selected[|r.selected| - 1].final ==>
            CoveredAt(r.selected, n))
      && |r.selected| + r.overlap + r.duplicates == |predecessor| + |successor|
  {
    hide BoundaryOk, ObservationsOk, FindPosition, Convergent, Pick, Candidates, CountAbove, CountBelow,
         Contiguous, OfEpoch, CoveredAt, Splices;
    ClosingChecksNeverReject(b, predecessor, successor);
    m := RunsOfSelection(b, predecessor, successor);
    PickedIsContiguous(b.kind, Candidates(b, predecessor, successor));
    PickedAccounts(b.kind, Candidates(b, predecessor, successor));
    var r := SelectCanonical(b, predecessor, successor).value;
    forall n | r.selected[0].first <= n <= r.selected[|r.selected| - 1].final
      ensures CoveredAt(r.selected, n)
    {
      ContiguousCovers(b.kind, r.selected, n);
    }
  }
}
