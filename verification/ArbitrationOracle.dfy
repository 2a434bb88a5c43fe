/**
  The depth oracle: the part of each raw generation that can be trusted, gathered by lane and final
  update.
 */
module ArbitrationOracle {
  import opened Wrappers
  import opened ArbitrationAudit

  // ----- the trusted part of a generation -----

  datatype DepthRange = DepthRange(first: int, final: int, digest: Digest)

  /** Stale ranges are skipped; the first jump ends what can be trusted. */
  function Trusted(expected: int, ranges: seq<DepthRange>): seq<DepthRange>
    decreases |ranges|
  {
    if ranges == [] then []
    else if ranges[0].final < expected then Trusted(expected, ranges[1..])
    else if ranges[0].first > expected then []
    else [ranges[0]] + Trusted(ranges[0].final + 1, ranges[1..])
  }

  /** The loop of `_trusted_depth_observations`. */
  method TrustedDepthObservations(snapshotLast: int, ranges: seq<DepthRange>) returns (trusted: seq<DepthRange>)
    ensures trusted == Trusted(snapshotLast + 1, ranges)
  {
    trusted := [];
    var expected := snapshotLast + 1;
    for i := 0 to |ranges|
      invariant Trusted(snapshotLast + 1, ranges) == trusted + Trusted(expected, ranges[i..])
    {
      assert ranges[i..][1..] == ranges[i + 1..];
      if ranges[i].final < expected {
        continue;
      }
      if ranges[i].first > expected {
        return;
      }
      trusted := trusted + [ranges[i]];
      expected := ranges[i].final + 1;
    }
  }

  ghost predicate Covers(ranges: seq<DepthRange>, u: int) {
    exists i :: 0 <= i < |ranges| && ranges[i].first <= u <= ranges[i].final
  }

  /** The first update after the trusted part. */
  function TrustedEnd(expected: int, ranges: seq<DepthRange>): int {
    var trusted := Trusted(expected, ranges);
    if trusted == [] then expected else trusted[|trusted| - 1].final + 1
  }

  /** The trusted part has no hole: every update from the snapshot to its end lies in a range. */
  lemma {:induction false} TrustedHasNoHole(expected: int, ranges: seq<DepthRange>, u: int)
    requires expected <= u < TrustedEnd(expected, ranges)
    ensures Covers(Trusted(expected, ranges), u)
    decreases |ranges|
  {
    if ranges[0].final < expected {
      TrustedHasNoHole(expected, ranges[1..], u);
    } else {
      var trusted, rest := Trusted(expected, ranges), Trusted(ranges[0].final + 1, ranges[1..]);
      assert trusted[0] == ranges[0];
      if u > ranges[0].final {
        assert rest != [] ==> trusted[|trusted| - 1] == rest[|rest| - 1];
        TrustedHasNoHole(ranges[0].final + 1, ranges[1..], u);
        var i :| 0 <= i < |rest| && rest[i].first <= u <= rest[i].final;
        assert trusted[i + 1] == rest[i];
      }
    }
  }

  /** The trusted part is as long as it can be: a range left out is stale or follows a jump. */
  lemma {:induction false} TrustedStopsAtJump(expected: int, ranges: seq<DepthRange>, j: nat)
    requires j < |ranges| && ranges[j] !in Trusted(expected, ranges)
    requires ranges[j].final >= TrustedEnd(expected, ranges)
    ensures exists i :: 0 <= i <= j && ranges[i].first > TrustedEnd(expected, ranges)
    decreases |ranges|
  {
    var rest := ranges[1..];
    if ranges[0].final < expected {
      TrustedEndGrows(expected, ranges);
      TrustedStopsAtJump(expected, rest, j - 1);
      var i :| 0 <= i <= j - 1 && rest[i].first > TrustedEnd(expected, rest);
      assert ranges[i + 1] == rest[i];
    } else if ranges[0].first <= expected {
      var next := ranges[0].final + 1;
      var trusted, after := Trusted(expected, ranges), Trusted(next, rest);
      assert trusted[0] == ranges[0];
      assert forall x :: x in after ==> x in trusted;
      assert after != [] ==> trusted[|trusted| - 1] == after[|after| - 1];
      assert TrustedEnd(expected, ranges) == TrustedEnd(next, rest);
      assert ranges[j] == rest[j - 1];
      TrustedStopsAtJump(next, rest, j - 1);
      var i :| 0 <= i <= j - 1 && rest[i].first > TrustedEnd(next, rest);
      assert ranges[i + 1] == rest[i];
    }
  }

  lemma {:induction false} TrustedEndGrows(expected: int, ranges: seq<DepthRange>)
    ensures expected <= TrustedEnd(expected, ranges)
    decreases |ranges|
  {
    if ranges != [] {
      if ranges[0].final < expected {
        TrustedEndGrows(expected, ranges[1..]);
      } else if ranges[0].first <= expected {
        TrustedEndGrows(ranges[0].final + 1, ranges[1..]);
        var trusted, rest := Trusted(expected, ranges), Trusted(ranges[0].final + 1, ranges[1..]);
        assert rest != [] ==> trusted[|trusted| - 1] == rest[|rest| - 1];
      }
    }
  }

  lemma {:induction false} TrustedBeforeEnd(expected: int, ranges: seq<DepthRange>, r: DepthRange)
    requires r in Trusted(expected, ranges)
    ensures r.final < TrustedEnd(expected, ranges)
    decreases |ranges|
  {
    if ranges[0].final < expected {
      TrustedBeforeEnd(expected, ranges[1..], r);
    } else {
      var trusted, rest := Trusted(expected, ranges), Trusted(ranges[0].final + 1, ranges[1..]);
      TrustedEndGrows(ranges[0].final + 1, ranges[1..]);
      assert rest != [] ==> trusted[|trusted| - 1] == rest[|rest| - 1];
      if r in rest {
        TrustedBeforeEnd(ranges[0].final + 1, ranges[1..], r);
      }
    }
  }

  // ----- the oracle -----

  /** A raw generation: its lane root, the update of its snapshot and its replayed ranges. */
  datatype Generation = Generation(lane: string, snapshotLast: int, ranges: seq<DepthRange>)
  {
    function TrustedRanges(): seq<DepthRange> {
      Trusted(snapshotLast + 1, ranges)
    }
  }

  datatype Variant = Variant(first: int, digest: Digest)

  type LaneMap = map<int, seq<Variant>>

  /** Trusted ranges by lane root and final update. */
  type Oracle = map<string, LaneMap>

  /** `setdefault(final, []).append(..)`: every raw variant is kept. */
  function AddRange(lane: LaneMap, r: DepthRange): LaneMap {
    lane[r.final := (if r.final in lane then lane[r.final] else []) + [Variant(r.first, r.digest)]]
  }

  function AddRanges(lane: LaneMap, ranges: seq<DepthRange>): LaneMap {
    if ranges == [] then lane else AddRange(AddRanges(lane, ranges[..|ranges| - 1]), ranges[|ranges| - 1])
  }

  function OracleOf(gs: seq<Generation>): Oracle {
    if gs == [] then map[]
    else
      var before, g := OracleOf(gs[..|gs| - 1]), gs[|gs| - 1];
      before[g.lane := AddRanges(if g.lane in before then before[g.lane] else map[], g.TrustedRanges())]
  }

  /** The gathering loop of `oracle_depth_by_lane`; a closed audit needs both lanes. */
  method OracleDepthByLane(gs: seq<Generation>, tolerateMissing: bool) returns (r: Option<Oracle>)
    ensures r.Some? <==> tolerateMissing || ("p" in OracleOf(gs) && "s" in OracleOf(gs))
    ensures r.Some? ==> r.value == OracleOf(gs)
  {
    hide Trusted, AddRange;
    var byLane: Oracle := map[];
    for i := 0 to |gs|
      invariant byLane == OracleOf(gs[..i])
    {
      assert gs[..i + 1][..i] == gs[..i];
      var trusted := TrustedDepthObservations(gs[i].snapshotLast, gs[i].ranges);
      ghost var start := if gs[i].lane in byLane then byLane[gs[i].lane] else map[];
      var laneMap := if gs[i].lane in byLane then byLane[gs[i].lane] else map[];
      for j := 0 to |trusted|
        invariant laneMap == AddRanges(start, trusted[..j])
      {
        assert trusted[..j + 1][..j] == trusted[..j];
        laneMap := AddRange(laneMap, trusted[j]);
      }
      assert trusted[..|trusted|] == trusted;
      byLane := byLane[gs[i].lane := laneMap];
    }
    assert gs[..|gs|] == gs;
    if !tolerateMissing && ("p" !in byLane || "s" !in byLane) {
      return None;
    }
    return Some(byLane);
  }

  predicate InLane(lane: LaneMap, r: DepthRange) {
    r.final in lane && Variant(r.first, r.digest) in lane[r.final]
  }

  lemma {:induction false} LaneMembers(lane: LaneMap, ranges: seq<DepthRange>, r: DepthRange)
    ensures InLane(AddRanges(lane, ranges), r) <==> InLane(lane, r) || r in ranges
  {
    if ranges != [] {
      var last := |ranges| - 1;
      LaneMembers(lane, ranges[..last], r);
      assert ranges == ranges[..last] + [ranges[last]];
    }
  }

  predicate InOracleOf(oracle: Oracle, lane: string, r: DepthRange) {
    lane in oracle && InLane(oracle[lane], r)
  }

  predicate Supplies(g: Generation, lane: string, r: DepthRange) {
    g.lane == lane && r in g.TrustedRanges()
  }

  /** The oracle holds exactly the trusted ranges of the generations of each lane. */
  lemma {:induction false} OracleMembers(gs: seq<Generation>, lane: string, r: DepthRange)
    ensures InOracleOf(OracleOf(gs), lane, r) <==> exists i :: 0 <= i < |gs| && Supplies(gs[i], lane, r)
  {
    hide InLane, Supplies, AddRanges;
    if gs != [] {
      var last := |gs| - 1;
      var front, g := gs[..last], gs[last];
      OracleMembers(front, lane, r);
      var before := OracleOf(front);
      LaneMembers(if g.lane in before then before[g.lane] else map[], g.TrustedRanges(), r);
      EmptyLane(r);
      SuppliesMeans(g, lane, r);
      if i :| 0 <= i < |front| && Supplies(front[i], lane, r) {
        assert Supplies(gs[i], lane, r);
      }
      if i :| 0 <= i < |gs| && Supplies(gs[i], lane, r) {
        assert i < last ==> Supplies(front[i], lane, r);
      }
    }
  }

  lemma EmptyLane(r: DepthRange)
    ensures !InLane(map[], r)
  {
  }

  lemma SuppliesMeans(g: Generation, lane: string, r: DepthRange)
    ensures Supplies(g, lane, r) <==> g.lane == lane && r in g.TrustedRanges()
  {
  }

  /** The oracle has a lane exactly when some generation is of it. */
  lemma {:induction false} OracleLanes(gs: seq<Generation>, lane: string)
    ensures lane in OracleOf(gs) <==> exists g :: 0 <= g < |gs| && gs[g].lane == lane
  {
    hide AddRanges;
    if gs != [] {
      var last := |gs| - 1;
      OracleLanes(gs[..last], lane);
      if g :| 0 <= g < |gs[..last]| && gs[..last][g].lane == lane {
        assert gs[g].lane == lane;
      }
      if g :| 0 <= g < |gs| && gs[g].lane == lane {
        assert g < last ==> gs[..last][g].lane == lane;
      }
    }
  }

  /** A lane is empty exactly when no generation of it has a trusted range. */
  lemma {:induction false} SilentLane(gs: seq<Generation>, lane: string)
    requires lane in OracleOf(gs)
    ensures OracleOf(gs)[lane] == map[] <==> forall g :: 0 <= g < |gs| && gs[g].lane == lane ==> gs[g].TrustedRanges() == []
  {
    hide OracleOf, Trusted;
    var variants := OracleOf(gs)[lane];
    if variants == map[] {
      forall g | 0 <= g < |gs| && gs[g].lane == lane ensures gs[g].TrustedRanges() == [] {
        if gs[g].TrustedRanges() != [] {
          assert Supplies(gs[g], lane, gs[g].TrustedRanges()[0]);
          OracleMembers(gs, lane, gs[g].TrustedRanges()[0]);
        }
      }
    } else {
      var final := SomeFinal(variants);
      NoEmptyVariants(gs, lane, final);
      var v := variants[final][0];
      OracleMembers(gs, lane, DepthRange(v.first, final, v.digest));
    }
  }

  lemma SomeFinal(variants: LaneMap) returns (final: int)
    requires variants != map[]
    ensures final in variants
  {
    assert (forall f :: f !in variants) ==> variants == map[];
    final :| final in variants;
  }

  lemma {:induction false} NoEmptyVariants(gs: seq<Generation>, lane: string, final: int)
    requires lane in OracleOf(gs) && final in OracleOf(gs)[lane]
    ensures OracleOf(gs)[lane][final] != []
  {
    hide AddRanges;
    if gs != [] {
      var last := |gs| - 1;
      var before, g := OracleOf(gs[..last]), gs[last];
      if lane in before && final in before[lane] {
        NoEmptyVariants(gs[..last], lane, final);
      }
      if g.lane == lane {
        AddedVariants(if lane in before then before[lane] else map[], g.TrustedRanges(), final);
      }
    }
  }

  lemma {:induction false} AddedVariants(lane: LaneMap, ranges: seq<DepthRange>, final: int)
    requires final in AddRanges(lane, ranges) && (final in lane ==> lane[final] != [])
    ensures AddRanges(lane, ranges)[final] != []
  {
    if ranges != [] {
      var last := |ranges| - 1;
      if final in AddRanges(lane, ranges[..last]) {
        AddedVariants(lane, ranges[..last], final);
      }
    }
  }
}
