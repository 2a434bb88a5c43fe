/** The latency histogram: recording, percentiles, extremes and reset. */
module Histogram {
  import opened Powers
  import opened HistogramLayout
  import opened Wrappers

  /** The number of samples whose slot is at most `slot`. */
  ghost function AtMost(slotOf: nat -> nat, samples: seq<nat>, slot: int): (n: nat)
    ensures n <= |samples|
  {
    if samples == [] then 0
    else
      var last := |samples| - 1;
      AtMost(slotOf, samples[..last], slot)
      + (if slotOf(samples[last]) <= slot then 1 else 0)
  }

  ghost function Copies(value: nat, count: nat): seq<nat> {
    seq(count, _ => value)
  }

  ghost predicate Sorted(s: seq<nat>) {
    forall i, j :: 0 <= i < j < |s| ==> s[i] <= s[j]
  }

  /** `sorted` lists the samples in non-decreasing order. */
  ghost predicate SortedSample(sorted: seq<nat>, samples: seq<nat>) {
    Sorted(sorted) && multiset(sorted) == multiset(samples)
  }

  /** Every sample has such an arrangement. */
  lemma {:induction false} SampleCanBeSorted(samples: seq<nat>) returns (sorted: seq<nat>)
    ensures SortedSample(sorted, samples)
  {
    sorted := [];
    if samples != [] {
      var last := |samples| - 1;
      var rest := SampleCanBeSorted(samples[..last]);
      assert samples == samples[..last] + [samples[last]];
      sorted := InsertSample(rest, samples[last]);
    }
  }

  lemma {:induction false} InsertSample(sorted: seq<nat>, value: nat) returns (more: seq<nat>)
    requires Sorted(sorted)
    ensures Sorted(more) && multiset(more) == multiset(sorted) + multiset{value}
  {
    if sorted == [] || sorted[|sorted| - 1] <= value {
      more := sorted + [value];
    } else {
      var last := |sorted| - 1;
      var front := InsertSample(sorted[..last], value);
      more := front + [sorted[last]];
      assert sorted == sorted[..last] + [sorted[last]];
      forall i | 0 <= i < |front| ensures front[i] <= sorted[last] {
        assert front[i] in multiset(front);
        assert front[i] == value || front[i] in sorted[..last];
      }
    }
  }

  /** C++ conversion of a floating-point value to an integer: truncation toward zero. */
  function Truncate(x: real): int {
    if x >= 0.0 then x.Floor else -((-x).Floor)
  }

  /** The requested share of the total, rounded half up once it is truncated. */
  function Share(percentile: real, total: nat): real {
    var requested := if percentile < 100.0 then percentile else 100.0;
    requested / 100.0 * (total as real) + 0.5
  }

  /** The 1-based rank of the sample a percentile asks for. */
  function Rank(percentile: real, total: nat): int {
    var countAt := Truncate(Share(percentile, total));
    if countAt < 1 then 1 else countAt
  }

  lemma ScaleMonotone(a: real, b: real, t: real)
    requires a <= b && t >= 0.0
    ensures a * t <= b * t
  {
    assert (b - a) * t == b * t - a * t;
  }

  lemma ShareMonotone(p: real, q: real, total: nat)
    requires p <= q
    ensures Share(p, total) <= Share(q, total)
  {
    var p' := if p < 100.0 then p else 100.0;
    var q' := if q < 100.0 then q else 100.0;
    ScaleMonotone(p' / 100.0, q' / 100.0, total as real);
  }

  lemma RankMonotone(p: real, q: real, total: nat)
    requires p <= q
    ensures Rank(p, total) <= Rank(q, total)
  {
    hide Share, Truncate;
    ShareMonotone(p, q, total);
    TruncateMonotone(Share(p, total), Share(q, total));
  }

  lemma RankInRange(percentile: real, total: nat)
    requires total >= 1
    ensures 1 <= Rank(percentile, total) <= total
  {
    var requested := if percentile < 100.0 then percentile else 100.0;
    ScaleMonotone(requested / 100.0, 1.0, total as real);
  }

  lemma TruncateMonotone(x: real, y: real)
    requires x <= y
    ensures Truncate(x) <= Truncate(y)
  {
  }

  lemma {:induction false} AtMostAppend(slotOf: nat -> nat, samples: seq<nat>, value: nat, count: nat, slot: int)
    ensures AtMost(slotOf, samples + Copies(value, count), slot) ==
            AtMost(slotOf, samples, slot) + (if slotOf(value) <= slot then count else 0)
  {
    if count == 0 {
      assert samples + Copies(value, 0) == samples;
    } else {
      AtMostAppend(slotOf, samples, value, count - 1, slot);
      var all := samples + Copies(value, count);
      assert all[..|all| - 1] == samples + Copies(value, count - 1);
    }
  }

  /** The samples without `count` of the copies of `value`, the last ones recorded. */
  ghost function TakeBack(samples: seq<nat>, value: nat, count: nat): (r: seq<nat>)
    requires count <= multiset(samples)[value]
    ensures |r| == |samples| - count
  {
    if count == 0 then samples
    else
      var last := |samples| - 1;
      assert samples == samples[..last] + [samples[last]];
      if samples[last] == value then TakeBack(samples[..last], value, count - 1)
      else TakeBack(samples[..last], value, count) + [samples[last]]
  }

  /** Exactly the copies taken back are missing. */
  lemma {:induction false} TakenBack(samples: seq<nat>, value: nat, count: nat)
    requires count <= multiset(samples)[value]
    ensures multiset(TakeBack(samples, value, count)) == multiset(samples)[value := multiset(samples)[value] - count]
  {
    if count > 0 {
      var last := |samples| - 1;
      assert samples == samples[..last] + [samples[last]];
      if samples[last] == value {
        TakenBack(samples[..last], value, count - 1);
      } else {
        TakenBack(samples[..last], value, count);
      }
    }
  }

  lemma {:induction false} AtMostTakenBack(slotOf: nat -> nat, samples: seq<nat>, value: nat, count: nat, slot: int)
    requires count <= multiset(samples)[value]
    ensures AtMost(slotOf, TakeBack(samples, value, count), slot) ==
            AtMost(slotOf, samples, slot) - (if slotOf(value) <= slot then count else 0)
  {
    if count > 0 {
      hide AtMost;
      var last := |samples| - 1;
      assert samples == samples[..last] + [samples[last]];
      AtMostLast(slotOf, samples[..last], samples[last], slot);
      if samples[last] == value {
        AtMostTakenBack(slotOf, samples[..last], value, count - 1, slot);
      } else {
        AtMostTakenBack(slotOf, samples[..last], value, count, slot);
        AtMostLast(slotOf, TakeBack(samples[..last], value, count), samples[last], slot);
      }
    }
  }

  lemma AtMostLast(slotOf: nat -> nat, front: seq<nat>, x: nat, slot: int)
    ensures AtMost(slotOf, front + [x], slot) == AtMost(slotOf, front, slot) + (if slotOf(x) <= slot then 1 else 0)
  {
    assert (front + [x])[..|front|] == front;
  }

  lemma {:induction false} AtMostRemove(slotOf: nat -> nat, s: seq<nat>, k: nat, slot: int)
    requires k < |s|
    ensures AtMost(slotOf, s, slot) ==
            AtMost(slotOf, s[..k] + s[k + 1..], slot) + (if slotOf(s[k]) <= slot then 1 else 0)
  {
    var last := |s| - 1;
    if k == last {
      assert s[..k] + s[k + 1..] == s[..last];
    } else {
      AtMostRemove(slotOf, s[..last], k, slot);
      var rest := s[..k] + s[k + 1..];
      assert rest[..|rest| - 1] == s[..last][..k] + s[..last][k + 1..];
    }
  }

  lemma {:induction false} AtMostOfPermutation(slotOf: nat -> nat, s: seq<nat>, t: seq<nat>, slot: int)
    requires multiset(s) == multiset(t)
    ensures AtMost(slotOf, s, slot) == AtMost(slotOf, t, slot)
    decreases |s|
  {
    if s == [] {
      assert |multiset(t)| == 0;
    } else {
      var last := |s| - 1;
      var k := MatchingElement(s, t);
      AtMostOfPermutation(slotOf, s[..last], t[..k] + t[k + 1..], slot);
      AtMostRemove(slotOf, t, k, slot);
    }
  }

  /** The last element of one arrangement has its match in the other; the rests are arrangements too. */
  lemma MatchingElement(s: seq<nat>, t: seq<nat>) returns (k: nat)
    requires s != [] && multiset(s) == multiset(t)
    ensures k < |t| && t[k] == s[|s| - 1]
    ensures multiset(s[..|s| - 1]) == multiset(t[..k] + t[k + 1..])
  {
    var last, x := |s| - 1, s[|s| - 1];
    assert s == s[..last] + [x];
    assert x in multiset(t);
    k :| 0 <= k < |t| && t[k] == x;
    assert t == t[..k] + [x] + t[k + 1..];
    assert multiset(t) == multiset(t[..k]) + multiset{x} + multiset(t[k + 1..]);
    assert multiset(s) == multiset(s[..last]) + multiset{x};
    assert multiset(t[..k] + t[k + 1..]) == multiset(t) - multiset{x};
    assert multiset(s[..last]) == multiset(s) - multiset{x};
  }

  lemma {:induction false} AtMostEnds(slotOf: nat -> nat, s: seq<nat>, bound: int)
    requires forall x :: x in s ==> slotOf(x) <= bound
    ensures AtMost(slotOf, s, -1) == 0
    ensures AtMost(slotOf, s, bound) == |s|
  {
    if s != [] {
      assert forall x :: x in s[..|s| - 1] ==> x in s;
      AtMostEnds(slotOf, s[..|s| - 1], bound);
      assert s[|s| - 1] in s;
    }
  }

  /** In a sorted sample, at least `k` samples reach a slot exactly when the `k`-th one does. */
  lemma {:induction false} CrossingSlot(slotOf: nat -> nat, s: seq<nat>, k: nat, slot: int)
    requires Sorted(s) && 1 <= k <= |s|
    requires forall x: nat, y: nat :: x <= y ==> slotOf(x) <= slotOf(y)
    ensures AtMost(slotOf, s, slot) >= k <==> slotOf(s[k - 1]) <= slot
  {
    var last := |s| - 1;
    if slotOf(s[last]) <= slot {
      assert forall x :: x in s ==> x <= s[last];
      AllAtMost(slotOf, s, slot);
    } else if k < |s| {
      CrossingSlot(slotOf, s[..last], k, slot);
    }
  }

  lemma {:induction false} AllAtMost(slotOf: nat -> nat, s: seq<nat>, slot: int)
    requires forall x :: x in s ==> slotOf(x) <= slot
    ensures AtMost(slotOf, s, slot) == |s|
  {
    if s != [] {
      assert forall x :: x in s[..|s| - 1] ==> x in s;
      AllAtMost(slotOf, s[..|s| - 1], slot);
      assert s[|s| - 1] in s;
    }
  }

  lemma {:induction false} AtMostMonotone(slotOf: nat -> nat, s: seq<nat>, i: int, j: int)
    requires i <= j
    ensures AtMost(slotOf, s, i) <= AtMost(slotOf, s, j)
  {
    if s != [] {
      AtMostMonotone(slotOf, s[..|s| - 1], i, j);
    }
  }

  /** What `value_at_percentile` promises about the sorted sample. */
  /**
    The rank a percentile asks for: the integer nearest to its share of the total, halves upward,
    but at least the first sample, and the last one from 100 on.
   */
  ghost predicate IsRank(k: int, percentile: real, total: nat) {
    var share := percentile / 100.0 * (total as real);
    if percentile >= 100.0 then k == total
    else if share < 0.5 then k == 1
    else k as real - 0.5 <= share < k as real + 0.5
  }

  /** The code's rank is that integer, and no other is. */
  lemma {:induction false} RankIsNearest(percentile: real, total: nat, k: int)
    requires total >= 1
    ensures IsRank(k, percentile, total) <==> k == Rank(percentile, total)
  {
    var requested := if percentile < 100.0 then percentile else 100.0;
    var share := requested / 100.0 * (total as real);
    FloorIsNearest(share, k);
    if percentile >= 100.0 {
      assert share == total as real;
      FloorIsNearest(share, total);
    }
  }

  lemma FloorIsNearest(share: real, k: int)
    ensures share >= 0.5 ==> (k as real - 0.5 <= share < k as real + 0.5 <==> k == (share + 0.5).Floor)
  {
  }

  ghost function PercentileOf(layout: Layout, sorted: seq<nat>, percentile: real): int
    requires sorted != []
  {
    RankInRange(percentile, |sorted|);
    layout.HighestEquivalent(sorted[Rank(percentile, |sorted|) - 1])
  }

  /** The answer for a percentile: the slot of the sample at its rank, and of the first one at 0. */
  ghost predicate IsPercentile(layout: Layout, sorted: seq<nat>, percentile: real, r: int)
    requires sorted != []
  {
    if percentile == 0.0 then r == layout.LowestEquivalent(sorted[0])
    else
      forall k :: IsRank(k, percentile, |sorted|) ==>
        1 <= k <= |sorted| && r == layout.HighestEquivalent(sorted[k - 1])
  }

  /** There is exactly one such answer. */
  lemma {:induction false} PercentileIsUnique(layout: Layout, sorted: seq<nat>, percentile: real, r: int)
    requires sorted != [] && percentile != 0.0
    ensures IsPercentile(layout, sorted, percentile, r) <==> r == PercentileOf(layout, sorted, percentile)
  {
    hide Rank, IsRank, Layout.HighestEquivalent;
    var k := Rank(percentile, |sorted|);
    RankInRange(percentile, |sorted|);
    RankIsNearest(percentile, |sorted|, k);
    forall j | IsRank(j, percentile, |sorted|) ensures j == k {
      RankIsNearest(percentile, |sorted|, j);
    }
  }

  lemma {:induction false} PercentileIsMonotone(layout: Layout, sorted: seq<nat>, p: real, q: real)
    requires layout.Valid() && Sorted(sorted) && sorted != [] && p <= q
    requires forall x :: x in sorted ==> x <= layout.highestTrackable
    ensures PercentileOf(layout, sorted, p) <= PercentileOf(layout, sorted, q)
  {
    RankMonotone(p, q, |sorted|);
    RankInRange(p, |sorted|);
    RankInRange(q, |sorted|);
    var i, j := Rank(p, |sorted|) - 1, Rank(q, |sorted|) - 1;
    assert sorted[i] <= sorted[j] && sorted[j] in sorted;
    layout.HighestIsMonotone(sorted[i], sorted[j]);
  }

  lemma {:induction false} PercentilePrecision(layout: Layout, sorted: seq<nat>, percentile: real)
    requires layout.Valid() && sorted != []
    requires forall x :: x in sorted ==> x <= layout.highestTrackable
    ensures 1 <= Rank(percentile, |sorted|) <= |sorted|
    ensures
      var sample := sorted[Rank(percentile, |sorted|) - 1];
      var excess := PercentileOf(layout, sorted, percentile) - sample;
      && 0 <= excess
      && (|| excess <= Pow2(layout.unitMagnitude) - 1
          || excess * Pow10(layout.significantFigures) < sample)
  {
    RankInRange(percentile, |sorted|);
    var sample := sorted[Rank(percentile, |sorted|) - 1];
    assert sample in sorted;
    layout.RelativePrecision(sample);
  }

  ghost predicate IsMaximum(m: nat, s: seq<nat>) {
    m in s && forall x :: x in s ==> x <= m
  }

  ghost predicate IsMinimum(m: nat, s: seq<nat>) {
    m in s && forall x :: x in s ==> m <= x
  }

  ghost predicate IsLeastNonZero(m: nat, s: seq<nat>) {
    m in s && m != 0 && forall x :: x in s && x != 0 ==> m <= x
  }

  /** Slot `i` counts the samples of slot `i`. */
  ghost predicate CountsAgree(layout: Layout, counts: seq<int>, samples: seq<nat>) {
    && |counts| == layout.CountsLen()
    && forall i :: 0 <= i < |counts| ==>
         counts[i] == AtMost(layout.CountsIndexFor, samples, i) - AtMost(layout.CountsIndexFor, samples, i - 1)
  }

  ghost predicate ExtremesAgree(minValue: int, maxValue: int, observed: seq<nat>) {
    && (observed == [] ==> maxValue == 0)
    && (observed != [] ==> maxValue >= 0 && IsMaximum(maxValue, observed))
    && (if forall v :: v in observed ==> v == 0 then minValue == INT64_MAX
        else
          && minValue > 0 && minValue in observed
          && (forall v :: v in observed && v != 0 ==> minValue <= v))
  }

  lemma CountsAgreeAfter(layout: Layout, counts: seq<int>, samples: seq<nat>, value: nat, count: nat)
    requires CountsAgree(layout, counts, samples)
    requires layout.CountsIndexFor(value) < |counts|
    ensures var slot := layout.CountsIndexFor(value);
      CountsAgree(layout, counts[slot := counts[slot] + count], samples + Copies(value, count))
  {
    var slot := layout.CountsIndexFor(value);
    var counts' := counts[slot := counts[slot] + count];
    var samples' := samples + Copies(value, count);
    forall i | 0 <= i < |counts'|
      ensures counts'[i] == AtMost(layout.CountsIndexFor, samples', i) - AtMost(layout.CountsIndexFor, samples', i - 1)
    {
      AtMostAppend(layout.CountsIndexFor, samples, value, count, i);
      AtMostAppend(layout.CountsIndexFor, samples, value, count, i - 1);
    }
  }

  lemma CountsAgreeTakenBack(layout: Layout, counts: seq<int>, samples: seq<nat>, value: nat, count: nat)
    requires CountsAgree(layout, counts, samples) && count <= multiset(samples)[value]
    requires layout.CountsIndexFor(value) < |counts|
    ensures var slot := layout.CountsIndexFor(value);
      CountsAgree(layout, counts[slot := counts[slot] - count], TakeBack(samples, value, count))
  {
    hide AtMost, TakeBack, Layout.CountsIndexFor;
    var slot := layout.CountsIndexFor(value);
    var counts' := counts[slot := counts[slot] - count];
    var samples' := TakeBack(samples, value, count);
    forall i | 0 <= i < |counts'|
      ensures counts'[i] == AtMost(layout.CountsIndexFor, samples', i) - AtMost(layout.CountsIndexFor, samples', i - 1)
    {
      AtMostTakenBack(layout.CountsIndexFor, samples, value, count, i);
      AtMostTakenBack(layout.CountsIndexFor, samples, value, count, i - 1);
    }
  }

  lemma ExtremesAgreeAfter(minValue: int, maxValue: int, observed: seq<nat>, value: nat)
    requires ExtremesAgree(minValue, maxValue, observed)
    requires value <= INT64_MAX && forall v :: v in observed ==> v <= INT64_MAX
    ensures ExtremesAgree(
              if value != 0 && value < minValue then value else minValue,
              if value > maxValue then value else maxValue,
              observed + [value])
  {
    var observed' := observed + [value];
    assert forall v :: v in observed' <==> v in observed || v == value;
    if value != 0 {
      assert value in observed';
    }
  }

  /** The slot where the cumulative count reaches `k` is the slot of the `k`-th smallest sample. */
  lemma {:induction false} RankSampleSlot(layout: Layout, sorted: seq<nat>, samples: seq<nat>, k: nat, slot: nat)
    requires SortedSample(sorted, samples)
    requires AtMost(layout.CountsIndexFor, samples, slot - 1) < k <= AtMost(layout.CountsIndexFor, samples, slot)
    ensures 1 <= k <= |sorted| == |samples|
    ensures layout.CountsIndexFor(sorted[k - 1]) == slot
  {
    assert |sorted| == |multiset(sorted)| == |samples|;
    forall x: nat, y: nat | x <= y ensures layout.CountsIndexFor(x) <= layout.CountsIndexFor(y) {
      layout.IndexIsMonotone(x, y);
    }
    AtMostOfPermutation(layout.CountsIndexFor, sorted, samples, slot);
    AtMostOfPermutation(layout.CountsIndexFor, sorted, samples, slot - 1);
    CrossingSlot(layout.CountsIndexFor, sorted, k, slot);
    CrossingSlot(layout.CountsIndexFor, sorted, k, slot - 1);
  }

  lemma CrossingSlotAnswers(layout: Layout, samples: seq<nat>, percentile: real, slot: nat)
    requires var k := Rank(percentile, |samples|);
      AtMost(layout.CountsIndexFor, samples, slot - 1) < k <= AtMost(layout.CountsIndexFor, samples, slot)
    ensures
      var v := layout.ValueAtIndex(slot);
      var r := if percentile == 0.0 then layout.LowestEquivalent(v) else layout.HighestEquivalent(v);
      forall sorted :: SortedSample(sorted, samples) && sorted != [] ==> IsPercentile(layout, sorted, percentile, r)
  {
    var k := Rank(percentile, |samples|);
    var v := layout.ValueAtIndex(slot);
    var r := if percentile == 0.0 then layout.LowestEquivalent(v) else layout.HighestEquivalent(v);
    forall sorted | SortedSample(sorted, samples) && sorted != [] ensures IsPercentile(layout, sorted, percentile, r) {
      RankSampleSlot(layout, sorted, samples, k, slot);
      layout.EquivalentsOfSlot(sorted[k - 1]);
      PercentileOfRank(layout, sorted, percentile, r);
    }
  }

  lemma PercentileOfRank(layout: Layout, sorted: seq<nat>, percentile: real, r: int)
    requires sorted != [] && 1 <= Rank(percentile, |sorted|) <= |sorted|
    requires
      var sample := sorted[Rank(percentile, |sorted|) - 1];
      r == if percentile == 0.0 then layout.LowestEquivalent(sample) else layout.HighestEquivalent(sample)
    ensures IsPercentile(layout, sorted, percentile, r)
  {
    hide Rank, IsRank, Layout.LowestEquivalent, Layout.HighestEquivalent;
    if percentile == 0.0 {
      RankIsNearest(percentile, |sorted|, 1);
      ZeroRank(|sorted|);
    } else {
      forall k | IsRank(k, percentile, |sorted|) ensures k == Rank(percentile, |sorted|) {
        RankIsNearest(percentile, |sorted|, k);
      }
    }
  }

  lemma ZeroRank(total: nat)
    ensures IsRank(1, 0.0, total)
  {
  }

  /** The constructor arguments that are not refused. */
  ghost predicate Acceptable(lowest: int, highest: int, significantFigures: int) {
    && 1 <= lowest <= highest / 2
    && 1 <= significantFigures <= 5
    && FloorLog2(lowest) + CeilLog2(2 * Pow10(significantFigures)) <= 62
  }

  /** The unit and the sub-buckets that the arguments ask for, as powers of two. */
  ghost predicate Asks(lowest: int, significantFigures: int, unit: nat, sub: nat) {
    && lowest >= 1 && significantFigures >= 1 && sub >= 1
    && Pow2(unit) <= lowest < 2 * Pow2(unit)
    && Pow2(sub - 1) < 2 * Pow10(significantFigures) <= Pow2(sub)
  }

  /** Arguments are accepted exactly when the range is at least doubled and unit and sub-buckets fit 62 bits. */
  lemma {:induction false} AcceptableMeans(lowest: int, highest: int, significantFigures: int, unit: nat, sub: nat)
    requires Asks(lowest, significantFigures, unit, sub)
    ensures Acceptable(lowest, highest, significantFigures) <==> 2 * lowest <= highest && significantFigures <= 5 && unit + sub <= 62
  {
    hide Pow2, Pow10, FloorLog2, CeilLog2;
    OneUnit(lowest, unit);
    OneSub(2 * Pow10(significantFigures), sub);
  }

  lemma OneUnit(lowest: int, unit: nat)
    requires lowest >= 1 && Pow2(unit) <= lowest < 2 * Pow2(unit)
    ensures FloorLog2(lowest) == unit
  {
    hide Pow2;
    Pow2Next(unit);
    OneExponent(unit, FloorLog2(lowest), lowest);
  }

  lemma OneSub(figures: int, sub: nat)
    requires figures >= 2 && sub >= 1 && Pow2(sub - 1) < figures <= Pow2(sub)
    ensures CeilLog2(figures) == sub
  {
    hide Pow2;
    OneExponent(sub - 1, CeilLog2(figures) - 1, figures - 1);
  }

  lemma OneExponent(a: nat, b: nat, n: int)
    requires Pow2(a) <= n < Pow2(a + 1) && Pow2(b) <= n < Pow2(b + 1)
    ensures a == b
  {
    hide Pow2;
    if a < b {
      Pow2Monotone(a + 1, b);
    } else if b < a {
      Pow2Monotone(b + 1, a);
    }
  }

  /**
    The layout for the arguments: the unit is the largest power of two up to the lowest value, half
    a bucket holds the smallest power of two with the asked precision, and there are as few buckets
    as cover the range.
   */
  ghost predicate Configured(lowest: int, highest: int, significantFigures: int, layout: Layout)
    requires lowest >= 1 && significantFigures >= 1
  {
    && layout.highestTrackable == highest && layout.significantFigures == significantFigures
    && Pow2(layout.unitMagnitude) <= lowest < Pow2(layout.unitMagnitude + 1)
    && Pow2(layout.halfCountMagnitude) < 2 * Pow10(significantFigures) <= Pow2(layout.halfCountMagnitude + 1)
    && highest < Pow2(layout.halfCountMagnitude + layout.unitMagnitude + layout.bucketCount)
    && (layout.bucketCount > 1 ==>
          Pow2(layout.halfCountMagnitude + layout.unitMagnitude + layout.bucketCount - 1) <= highest)
  }

  lemma LayoutIsValid(layout: Layout)
    requires 1 <= layout.significantFigures <= 5 && layout.highestTrackable <= INT64_MAX
    requires layout.halfCountMagnitude == CeilLog2(2 * Pow10(layout.significantFigures)) - 1
    requires layout.unitMagnitude + layout.halfCountMagnitude <= 61 && 1 <= layout.bucketCount
    requires layout.halfCountMagnitude + layout.unitMagnitude + layout.bucketCount <= 63
    requires layout.highestTrackable < Pow2(layout.halfCountMagnitude + layout.unitMagnitude + layout.bucketCount)
    ensures layout.Valid()
  {
    hide Pow2, Pow10;
    HalfMagnitudeFits(layout.significantFigures);
  }

  class HdrHistogram {
    const layout: Layout
    const lowestDiscernible: nat
    var counts: array<int>
    var minValue: int
    var maxValue: int
    var totalCount: int
    /** The recorded samples, one entry per counted occurrence. */
    ghost var samples: seq<nat>
    /** The value of every accepted recording call, including calls with a zero count. */
    ghost var observed: seq<nat>

    ghost predicate Valid()
      reads this, counts
    {
      && layout.Valid()
      && CountsAgree(layout, counts[..], samples)
      && ExtremesAgree(minValue, maxValue, observed)
      && totalCount == |samples|
      && (forall v :: v in observed ==> v <= layout.highestTrackable)
      && (forall v :: v in samples ==> v in observed)
    }

    constructor (layout: Layout, lowestDiscernible: nat)
      requires layout.Valid()
      ensures Valid() && fresh(counts)
      ensures samples == [] && observed == []
      ensures this.layout == layout && this.lowestDiscernible == lowestDiscernible
    {
      this.layout := layout;
      this.lowestDiscernible := lowestDiscernible;
      counts := new int[layout.CountsLen()](_ => 0);
      minValue, maxValue, totalCount := INT64_MAX, 0, 0;
      samples, observed := [], [];
    }

    /** The parameter checks of the C++ constructor. */
    static method Create(lowest: int, highest: int, significantFigures: int)
      returns (r: Option<HdrHistogram>)
      requires highest <= INT64_MAX
      ensures r.Some? <==> Acceptable(lowest, highest, significantFigures)
      ensures r.Some? ==>
              && fresh(r.value) && fresh(r.value.counts) && r.value.Valid()
              && r.value.samples == [] && r.value.observed == []
              && Configured(lowest, highest, significantFigures, r.value.layout)
    {
      hide Configured, Pow2, Pow10;
      var layout := Configure(lowest, highest, significantFigures);
      if layout.None? {
        return None;
      }
      var h := new HdrHistogram(layout.value, lowest);
      r := Some(h);
    }

    /** The bucket configuration of the C++ constructor. */
    static method Configure(lowest: int, highest: int, significantFigures: int)
      returns (r: Option<Layout>)
      requires highest <= INT64_MAX
      ensures r.Some? <==> Acceptable(lowest, highest, significantFigures)
      ensures r.Some? ==> r.value.Valid() && Configured(lowest, highest, significantFigures, r.value)
    {
      hide Pow2, Pow10, Layout.Valid, FloorLog2, CeilLog2, BitLength;
      if lowest < 1 || significantFigures < 1 || significantFigures > 5 || lowest > highest / 2 {
        return None;
      }
      var largestSingleUnit := LargestSingleUnit(significantFigures);
      HalfMagnitudeFits(significantFigures);
      var magnitude := CeilLog2(largestSingleUnit);
      var half := (if magnitude > 1 then magnitude else 1) - 1;
      var unit := FloorLog2(lowest);
      if unit + half > 61 {
        return None;
      }
      var buckets := BucketsNeeded(highest, unit, half);
      r := Some(Layout(highest, significantFigures, unit, half, buckets));
      LayoutIsValid(r.value);
    }

    /** Twice the power of ten: the largest value kept with single-unit resolution. */
    static method LargestSingleUnit(significantFigures: nat) returns (unit: nat)
      ensures unit == 2 * Pow10(significantFigures)
    {
      unit := 2;
      for i := 0 to significantFigures
        invariant unit == 2 * Pow10(i)
      {
        unit := unit * 10;
      }
    }

    /** Doubles the covered range until it holds `value`, stopping before the doubling overflows. */
    static method BucketsNeeded(value: nat, unit: nat, half: nat) returns (buckets: nat)
      requires value <= INT64_MAX && unit + half <= 61
      ensures 1 <= buckets && half + unit + buckets <= 63
      ensures value < Pow2(half + unit + buckets)
      ensures buckets > 1 ==> Pow2(half + unit + buckets - 1) <= value
    {
      hide Pow2;
      Pow2At63();
      Pow2Add(half + 1, unit);
      var smallestUntrackable := Pow2(half + 1) * Pow2(unit);
      buckets := 1;
      Pow2Monotone(half + 1 + unit, 62);
      while smallestUntrackable <= value
        invariant 1 <= buckets && half + unit + buckets <= 62
        invariant smallestUntrackable == Pow2(half + unit + buckets) <= INT64_MAX
        invariant buckets > 1 ==> Pow2(half + unit + buckets - 1) <= value
        decreases 63 - half - unit - buckets
      {
        if smallestUntrackable > INT64_MAX / 2 {
          if half + unit + buckets < 62 {
            Pow2Next(61);
            Pow2Monotone(half + unit + buckets, 61);
          }
          return buckets + 1;
        }
        if half + unit + buckets == 62 {
          assert false;
        }
        Pow2Next(half + unit + buckets);
        smallestUntrackable := smallestUntrackable * 2;
        buckets := buckets + 1;
        Pow2Monotone(half + unit + buckets, 62);
      }
    }

    /**
      Records `count` occurrences of a value in `[0, highest]` and refuses any other value.  A
      negative count is added like any other: it takes recorded occurrences of the value back, and
      below zero occurrences only the counters describe what the histogram then holds.
     */
    method RecordValues(value: int, count: int) returns (ok: bool)
      requires Valid()
      modifies this, counts
      ensures counts == old(counts)
      ensures ok <==> 0 <= value <= layout.highestTrackable
      ensures ok ==>
        var slot := layout.CountsIndexFor(value);
        && slot < |old(counts[..])| && counts[..] == old(counts[..])[slot := old(counts[..])[slot] + count]
        && totalCount == old(totalCount) + count
        && observed == old(observed) + [value] && ExtremesAgree(minValue, maxValue, observed)
      ensures ok && count >= 0 ==> Valid() && samples == old(samples) + Copies(value, count)
      ensures ok && count < 0 && -count <= old(multiset(samples)[value]) ==>
        Valid() && multiset(samples) == old(multiset(samples)[value := multiset(samples)[value] + count])
      ensures !ok ==> Valid() && unchanged(this) && counts[..] == old(counts[..])
    {
      hide AtMost, TakeBack, Copies, CountsAgree, ExtremesAgree, Layout.CountsIndexFor, Layout.Valid;
      if value < 0 || layout.highestTrackable < value {
        return false;
      }
      SlotInRange(value);
      ExtremesAgreeAfter(minValue, maxValue, observed, value);
      var idx := layout.CountsIndexFor(value);
      if idx >= counts.Length {
        return false;
      }
      ghost var after := SamplesAfter(value, count);
      counts[idx] := counts[idx] + count;
      totalCount := totalCount + count;
      if value > maxValue {
        maxValue := value;
      }
      if value != 0 && value < minValue {
        minValue := value;
      }
      samples := after;
      observed := observed + [value];
      assert counts[..] == old(counts[..])[idx := old(counts[..])[idx] + count];
      return true;
    }

    lemma SlotInRange(value: nat)
      requires Valid() && value <= layout.highestTrackable
      ensures layout.CountsIndexFor(value) < counts.Length && value <= INT64_MAX
      ensures layout.highestTrackable <= INT64_MAX
    {
      layout.IndexInRange(value);
    }

    /** The samples a recording leaves, where counters and samples can still agree. */
    lemma SamplesAfter(value: nat, count: int) returns (after: seq<nat>)
      requires Valid() && layout.CountsIndexFor(value) < counts.Length
      ensures count >= 0 ==> after == samples + Copies(value, count)
      ensures count < 0 && -count <= multiset(samples)[value] ==>
        multiset(after) == multiset(samples)[value := multiset(samples)[value] + count]
      ensures count >= 0 || -count <= multiset(samples)[value] ==>
        var slot := layout.CountsIndexFor(value);
        && CountsAgree(layout, counts[..][slot := counts[..][slot] + count], after)
        && |after| == |samples| + count
        && forall v :: v in after ==> v in samples || v == value
    {
      hide CountsAgree, Layout.CountsIndexFor, TakeBack;
      if count >= 0 {
        after := samples + Copies(value, count);
        CountsAgreeAfter(layout, counts[..], samples, value, count);
      } else if -count <= multiset(samples)[value] {
        after := TakeBack(samples, value, -count);
        TakenBack(samples, value, -count);
        CountsAgreeTakenBack(layout, counts[..], samples, value, -count);
        forall v | v in after ensures v in samples {
          assert v in multiset(after);
          assert v in multiset(samples);
        }
      } else {
        after := samples;
      }
    }

    method Record(value: int) returns (ok: bool)
      requires Valid()
      modifies this, counts
      ensures Valid() && counts == old(counts)
      ensures ok <==> 0 <= value <= layout.highestTrackable
      ensures ok ==> samples == old(samples) + [value]
      ensures !ok ==> unchanged(this) && counts[..] == old(counts[..])
    {
      ok := RecordValues(value, 1);
      if ok {
        assert Copies(value, 1) == [value];
      }
    }

    /**
      The percentile rule: the highest equivalent value of the sample at the requested rank
      (its lowest equivalent value for percentile 0), and 0 when nothing is recorded.
     */
    method ValueAtPercentile(percentile: real) returns (r: int)
      requires Valid()
      ensures samples == [] ==> r == 0
      ensures forall sorted :: SortedSample(sorted, samples) && sorted != [] ==> IsPercentile(layout, sorted, percentile, r)
    {
      hide IsPercentile;
      var countAt := Rank(percentile, totalCount);
      var running := 0;
      SamplesHaveSlots();
      for i := 0 to counts.Length
        invariant running == AtMost(layout.CountsIndexFor, samples, i - 1) < countAt
      {
        assert counts[i] == counts[..][i];
        running := running + counts[i];
        if running >= countAt {
          var v := layout.ValueAtIndex(i);
          CrossingSlotAnswers(layout, samples, percentile, i);
          r := if percentile == 0.0 then layout.LowestEquivalent(v) else layout.HighestEquivalent(v);
          return;
        }
      }
      if samples != [] {
        RankInRange(percentile, |samples|);
      }
      assert forall sorted :: SortedSample(sorted, samples) ==> |sorted| == |multiset(samples)|;
      r := 0;
    }

    lemma SamplesHaveSlots()
      requires Valid()
      ensures AtMost(layout.CountsIndexFor, samples, -1) == 0
      ensures AtMost(layout.CountsIndexFor, samples, counts.Length - 1) == |samples|
    {
      forall x | x in samples ensures layout.CountsIndexFor(x) <= counts.Length - 1 {
        layout.IndexInRange(x);
      }
      AtMostEnds(layout.CountsIndexFor, samples, counts.Length - 1);
    }

    /** The highest equivalent value of the largest observation, or 0. */
    method Maximum() returns (r: int)
      requires Valid()
      ensures observed == [] ==> r == 0
      ensures forall m :: IsMaximum(m, observed) ==>
                r == if m == 0 then 0 else layout.HighestEquivalent(m)
    {
      if maxValue == 0 {
        return 0;
      }
      r := layout.HighestEquivalent(maxValue);
    }

    /**
      What `min()` returns, whatever was recorded: 0 once some sample shares slot 0, which with a
      unit above 1 need not be a recorded 0; otherwise the lowest equivalent of the least non-zero
      value of any recording call, where `INT64_MAX` is taken for the empty marker and returned
      unrounded.
     */
    method Minimum() returns (r: int)
      requires Valid()
      ensures (exists x :: x in samples && layout.LowestEquivalent(x) == 0) ==> r == 0
      ensures !(exists x :: x in samples && layout.LowestEquivalent(x) == 0) ==>
        && ((forall v :: v in observed ==> v == 0) ==> r == INT64_MAX)
        && (forall m :: IsLeastNonZero(m, observed) ==>
              r == if m == INT64_MAX then INT64_MAX else layout.LowestEquivalent(m))
      ensures observed == [] ==> r == INT64_MAX
      ensures forall m :: IsMinimum(m, samples) && (forall v :: v in observed ==> v in samples) ==>
                r == if m == INT64_MAX then INT64_MAX else layout.LowestEquivalent(m)
    {
      hide AtMost, Layout.LowestEquivalent, Layout.CountsIndexFor, Layout.Valid, CountsAgree;
      CountsNotEmpty();
      SlotZeroInUse();
      if counts[0] > 0 {
        r := 0;
      } else if minValue == INT64_MAX {
        r := INT64_MAX;
      } else {
        r := layout.LowestEquivalent(minValue);
      }
      if observed == [] {
        NothingObserved();
      }
      forall m | IsMinimum(m, samples) && (forall v :: v in observed ==> v in samples)
        ensures r == if m == INT64_MAX then INT64_MAX else layout.LowestEquivalent(m)
      {
        SlotZeroMeansZero(m);
        if m > 0 {
          MinValueIsMinimum(m);
        }
      }
    }

    /** Slot 0 counts something exactly when some sample is equivalent to 0. */
    lemma SlotZeroInUse()
      requires Valid()
      ensures counts.Length >= 1
      ensures counts[0] > 0 <==> exists x :: x in samples && layout.LowestEquivalent(x) == 0
    {
      hide Layout.CountsIndexFor, Layout.LowestEquivalent, Layout.ValueAtIndex, AtMost;
      CountsNotEmpty();
      SamplesHaveSlots();
      assert counts[0] == counts[..][0];
      if counts[0] > 0 {
        var x := SampleInSlotZero(samples);
        SlotZeroIsLowest(x);
      }
      if x :| x in samples && layout.LowestEquivalent(x) == 0 {
        SlotZeroIsLowest(x);
        SlotZeroCounted(samples, x);
      }
    }

    lemma SlotZeroIsLowest(x: nat)
      ensures layout.CountsIndexFor(x) == 0 <==> layout.LowestEquivalent(x) == 0
    {
      hide Layout.CountsIndexFor, Layout.LowestEquivalent, Layout.ValueAtIndex;
      layout.SlotsTile(0);
      layout.ValueAtIndexOfValue(x);
      if layout.CountsIndexFor(x) > 0 {
        layout.ValueAtIndexIncreases(0, layout.CountsIndexFor(x));
      }
    }

    lemma NothingObserved()
      requires Valid() && observed == []
      ensures counts.Length >= 1 && counts[0] == 0 && minValue == INT64_MAX
    {
      CountsNotEmpty();
      SamplesHaveSlots();
      assert |samples| == 0 by {
        assert forall i :: 0 <= i < |samples| ==> samples[i] in samples;
      }
      assert AtMost(layout.CountsIndexFor, samples, 0) == 0;
      assert counts[0] == counts[..][0];
    }

    lemma MinValueIsMinimum(m: nat)
      requires Valid() && IsMinimum(m, samples) && m > 0
      requires forall v :: v in observed ==> v in samples
      ensures minValue == m
    {
      assert m in observed && m != 0;
      assert minValue in observed;
    }

    lemma CountsNotEmpty()
      requires Valid()
      ensures counts.Length >= 1
    {
      MulMonotone(1, layout.bucketCount + 1, layout.SubBucketHalfCount());
    }

    /** The first slot is in use exactly when the smallest sample is equivalent to 0. */
    lemma SlotZeroMeansZero(m: nat)
      requires Valid() && IsMinimum(m, samples)
      ensures counts.Length >= 1
      ensures counts[0] > 0 <==> layout.LowestEquivalent(m) == 0
      ensures m == 0 ==> counts[0] > 0
      ensures m == INT64_MAX ==> counts[0] <= 0
    {
      hide Layout.CountsIndexFor, Layout.LowestEquivalent, Layout.ValueAtIndex;
      CountsNotEmpty();
      assert counts[0] == counts[..][0];
      SamplesHaveSlots();
      layout.SlotsTile(0);
      layout.ValueAtIndexOfValue(m);
      layout.SlotHoldsRange(m, 0);
      layout.NoOverflow(m);
      layout.RangeSize(m);
      if layout.CountsIndexFor(m) == 0 {
        SlotZeroCounted(samples, m);
      } else {
        layout.ValueAtIndexIncreases(0, layout.CountsIndexFor(m));
        if counts[0] > 0 {
          var x := SampleInSlotZero(samples);
          layout.IndexIsMonotone(m, x);
        }
      }
    }

    lemma {:induction false} SampleInSlotZero(s: seq<nat>) returns (x: nat)
      requires AtMost(layout.CountsIndexFor, s, 0) > 0
      ensures x in s && layout.CountsIndexFor(x) == 0
    {
      var last := |s| - 1;
      if layout.CountsIndexFor(s[last]) == 0 {
        x := s[last];
      } else {
        x := SampleInSlotZero(s[..last]);
      }
    }

    lemma {:induction false} SlotZeroCounted(s: seq<nat>, x: nat)
      requires x in s && layout.CountsIndexFor(x) == 0
      ensures AtMost(layout.CountsIndexFor, s, 0) > 0
    {
      var last := |s| - 1;
      if s[last] != x {
        assert s == s[..last] + [s[last]];
        SlotZeroCounted(s[..last], x);
      }
    }

    /** The number of samples that are indistinguishable from `value`. */
    method CountAtValue(value: int) returns (n: int)
      requires Valid()
      ensures value < 0 ==> n == 0
      ensures value >= 0 ==>
                n == AtMost(layout.CountsIndexFor, samples, layout.CountsIndexFor(value))
                     - AtMost(layout.CountsIndexFor, samples, layout.CountsIndexFor(value) - 1)
    {
      if value < 0 {
        return 0;
      }
      var idx := layout.CountsIndexFor(value);
      if idx >= counts.Length {
        SamplesHaveSlots();
        AtMostMonotone(layout.CountsIndexFor, samples, counts.Length - 1, idx - 1);
        AtMostMonotone(layout.CountsIndexFor, samples, idx - 1, idx);
        return 0;
      }
      assert counts[idx] == counts[..][idx];
      return counts[idx];
    }

    method Reset()
      requires Valid()
      modifies this, counts
      ensures Valid() && counts == old(counts)
      ensures samples == [] && observed == []
    {
      for i := 0 to counts.Length
        invariant forall j :: 0 <= j < i ==> counts[j] == 0
        modifies counts
      {
        counts[i] := 0;
      }
      totalCount, minValue, maxValue := 0, INT64_MAX, 0;
      samples, observed := [], [];
    }
  }

  /** `min()` can be 0 when only a 1 was recorded: with lowest value 2 it shares the slot of 0. */
  method MinimumOfOne() returns (h: HdrHistogram, r: int)
    ensures h.Valid() && h.samples == [1] && r == 0
  {
    hide Pow2, Layout.LowestEquivalent, Layout.Valid, AtMost;
    SmallConfiguration();
    var created := HdrHistogram.Create(2, 1000, 1);
    h := created.value;
    var ok := h.Record(1);
    r := h.Minimum();
    OneIsInSlotZero(h.layout);
    assert 1 in h.samples;
  }

  lemma SmallConfiguration()
    ensures Acceptable(2, 1000, 1) && Pow2(0) == 1 && Pow2(1) == 2 && Pow2(2) == 4
    ensures forall layout: Layout :: Configured(2, 1000, 1, layout) ==> layout.unitMagnitude == 1 && layout.highestTrackable == 1000
  {
    assert Pow2(0) == 1 && Pow2(1) == 2 && Pow2(2) == 4;
    assert FloorLog2(2) == 1;
    HalfMagnitudeFits(1);
    forall layout: Layout | Configured(2, 1000, 1, layout) ensures layout.unitMagnitude == 1 {
      if layout.unitMagnitude >= 2 {
        Pow2Monotone(2, layout.unitMagnitude);
      }
    }
  }

  lemma OneIsInSlotZero(layout: Layout)
    requires layout.unitMagnitude == 1
    ensures layout.LowestEquivalent(1) == 0
  {
    hide Layout.LowestEquivalent, Layout.CountsIndexFor, Layout.ValueAtIndex, Layout.SizeOfEquivalentRange;
    layout.SlotsTile(0);
    layout.RangeSize(0);
    layout.SlotHoldsRange(1, 0);
    layout.ValueAtIndexOfValue(1);
    assert Pow2(1) == 2;
    Pow2Monotone(1, layout.BucketIndex(0) + 1);
  }

  lemma HalfMagnitudeFits(significantFigures: nat)
    requires 1 <= significantFigures <= 5
    ensures 2 <= CeilLog2(2 * Pow10(significantFigures)) <= 18
    ensures Pow10(significantFigures) <= Pow2(CeilLog2(2 * Pow10(significantFigures)) - 1)
  {
    var n := 2 * Pow10(significantFigures);
    var m := CeilLog2(n);
    PowersInUse(significantFigures);
    if m > 18 {
      Pow2Monotone(18, m - 1);
    }
    assert Pow2(1) == 2;
  }

  lemma PowersInUse(significantFigures: nat)
    requires 1 <= significantFigures <= 5
    ensures 20 <= 2 * Pow10(significantFigures) <= 200_000
    ensures Pow2(18) == 262_144
  {
    assert Pow10(1) == 10 && Pow10(2) == 100 && Pow10(3) == 1000;
    Pow10Add(2, 2);
    Pow10Add(2, 3);
    assert Pow2(9) == 512;
    Pow2Add(9, 9);
  }
}
