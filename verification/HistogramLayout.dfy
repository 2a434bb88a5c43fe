/**
  The bucket arithmetic of `HdrHistogram`: the map from a value to its slot in the counts
  array and back.  Shifts and masks are written with `Powers`; `NoOverflow` and
  `SlotsFitTypes` show that every intermediate of the C++ code stays inside its type.
 */
module HistogramLayout {
  import opened Powers

  /** The configuration the constructor computes once and never changes. */
  datatype Layout = Layout(
    highestTrackable: nat,
    significantFigures: nat,
    unitMagnitude: nat,
    halfCountMagnitude: nat,
    bucketCount: nat)
  {
    ghost predicate Valid() {
      && 1 <= significantFigures <= 5
      && Pow10(significantFigures) <= Pow2(halfCountMagnitude)
      && halfCountMagnitude <= 17
      && unitMagnitude + halfCountMagnitude <= 61
      && 1 <= bucketCount
      && halfCountMagnitude + unitMagnitude + bucketCount <= 63
      && highestTrackable < Pow2(halfCountMagnitude + unitMagnitude + bucketCount)
      && highestTrackable <= INT64_MAX
    }

    function SubBucketHalfCount(): nat { Pow2(halfCountMagnitude) }

    function SubBucketCount(): nat { Pow2(halfCountMagnitude + 1) }

    function SubBucketMask(): nat { (SubBucketCount() - 1) * Pow2(unitMagnitude) }

    function CountsLen(): nat { (bucketCount + 1) * (SubBucketCount() / 2) }

    function BucketIndex(value: nat): nat {
      MaskedLength(value);
      BitLength(BitOr(value, SubBucketMask())) - unitMagnitude - (halfCountMagnitude + 1)
    }

    function SubBucketIndex(value: nat, bucket: nat): nat {
      ShiftRight(value, bucket + unitMagnitude)
    }

    function CountsIndex(bucket: nat, sub: nat): nat {
      MulMonotone(1, bucket + 1, SubBucketHalfCount());
      (bucket + 1) * SubBucketHalfCount() + (sub - SubBucketHalfCount())
    }

    function CountsIndexFor(value: nat): nat {
      CountsIndex(BucketIndex(value), SubBucketIndex(value, BucketIndex(value)))
    }

    function ValueFromIndex(bucket: nat, sub: nat): nat {
      sub * Pow2(bucket + unitMagnitude)
    }

    function ValueAtIndex(index: nat): nat {
      var bucket := index / SubBucketHalfCount() - 1;
      var sub := BitAnd(index, SubBucketHalfCount() - 1) + SubBucketHalfCount();
      if bucket < 0
      then ValueFromIndex(0, sub - SubBucketHalfCount())
      else ValueFromIndex(bucket, sub)
    }

    function LowestEquivalent(value: nat): nat {
      ValueFromIndex(BucketIndex(value), SubBucketIndex(value, BucketIndex(value)))
    }

    function SizeOfEquivalentRange(value: nat): nat {
      var bucket := BucketIndex(value);
      var sub := SubBucketIndex(value, bucket);
      var adjusted := if sub >= SubBucketCount() then bucket + 1 else bucket;
      Pow2(unitMagnitude + adjusted)
    }

    function HighestEquivalent(value: nat): int {
      var low := LowestEquivalent(value);
      var size := SizeOfEquivalentRange(value);
      if low > INT64_MAX - size then INT64_MAX else low + size - 1
    }

    static lemma MaskBounds(n: nat, d: nat)
      requires n >= 1 && d >= 1
      ensures n * d <= (2 * n - 1) * d < 2 * n * d
    {
      assert (2 * n - 1) * d == 2 * n * d - d;
      MulMonotone(n, 2 * n - 1, d);
    }

    lemma MaskLength()
      ensures BitLength(SubBucketMask()) == halfCountMagnitude + 1 + unitMagnitude
    {
      hide Pow2, BitLength;
      var n, d := Pow2(halfCountMagnitude), Pow2(unitMagnitude);
      Pow2Next(halfCountMagnitude);
      Pow2Add(halfCountMagnitude, unitMagnitude);
      Pow2Add(halfCountMagnitude + 1, unitMagnitude);
      MaskBounds(n, d);
      BitLengthUnique(SubBucketMask(), halfCountMagnitude + unitMagnitude);
    }

    lemma MaskedLength(value: nat)
      ensures BitLength(BitOr(value, SubBucketMask())) ==
              Max(BitLength(value), halfCountMagnitude + 1 + unitMagnitude)
    {
      MaskLength();
      BitLengthOfOr(value, SubBucketMask());
    }

    /** A bucket and sub-bucket pair that some value maps to. */
    ghost predicate Normal(bucket: nat, sub: nat) {
      sub < SubBucketCount() && (bucket > 0 ==> SubBucketHalfCount() <= sub)
    }

    /** The value lies in the half-open range of the pair. */
    ghost predicate InPair(value: nat, bucket: nat, sub: nat) {
      ValueFromIndex(bucket, sub) <= value < ValueFromIndex(bucket, sub) + Pow2(bucket + unitMagnitude)
    }

    lemma InPairIsQuotient(value: nat, bucket: nat, sub: nat)
      ensures InPair(value, bucket, sub) <==> SubBucketIndex(value, bucket) == sub
    {
      hide Pow2;
      var d := Pow2(bucket + unitMagnitude);
      assert (sub + 1) * d == sub * d + d;
      assert value == d * (value / d) + value % d;
      assert d * sub == sub * d;
      if InPair(value, bucket, sub) {
        QuotientBounds(value, d, sub, sub + 1);
      }
    }

    /** Bucket `b` is determined by the length of the value. */
    lemma BucketOfLength(value: nat, b: nat)
      ensures BucketIndex(value) == b <==>
              && value < SubBucketCount() * Pow2(b + unitMagnitude)
              && (b > 0 ==> SubBucketHalfCount() * Pow2(b + unitMagnitude) <= value)
    {
      hide Pow2, BitLength, BitOr;
      MaskedLength(value);
      var len := halfCountMagnitude + 1 + unitMagnitude;
      Pow2Add(halfCountMagnitude + 1, b + unitMagnitude);
      Pow2Add(halfCountMagnitude, b + unitMagnitude);
      assert SubBucketCount() * Pow2(b + unitMagnitude) == Pow2(len + b);
      assert b > 0 ==> SubBucketHalfCount() * Pow2(b + unitMagnitude) == Pow2(len + b - 1);
      LengthBounds(value, len, b);
    }

    lemma LengthBounds(value: nat, len: nat, b: nat)
      requires len > 0
      ensures Max(BitLength(value), len) - len == b <==>
              value < Pow2(len + b) && (b > 0 ==> Pow2(len + b - 1) <= value)
    {
      hide Pow2, BitLength;
      if value == 0 {
        BitLengthAtMost(0, 0);
      }
      if Max(BitLength(value), len) - len == b {
        Pow2Monotone(BitLength(value), len + b);
      } else if value < Pow2(len + b) && (b > 0 ==> Pow2(len + b - 1) <= value) {
        BitLengthAtMost(value, len + b);
        if b > 0 {
          BitLengthUnique(value, len + b - 1);
        }
      }
    }

    /** The pair of a value is normal, and the value lies in the pair's range. */
    lemma PairOfValue(value: nat)
      ensures Normal(BucketIndex(value), SubBucketIndex(value, BucketIndex(value)))
      ensures InPair(value, BucketIndex(value), SubBucketIndex(value, BucketIndex(value)))
    {
      hide BucketIndex, Pow2;
      var b := BucketIndex(value);
      var s := SubBucketIndex(value, b);
      BucketOfLength(value, b);
      InPairIsQuotient(value, b, s);
      QuotientBounds(value, Pow2(b + unitMagnitude), if b > 0 then SubBucketHalfCount() else 0, SubBucketCount());
    }

    /** A normal pair is recovered from every value of its range. */
    lemma PairIsUnique(value: nat, b: nat, s: nat)
      requires Normal(b, s) && InPair(value, b, s)
      ensures BucketIndex(value) == b && SubBucketIndex(value, b) == s
    {
      hide BucketIndex, SubBucketIndex, Pow2;
      var d := Pow2(b + unitMagnitude);
      assert (s + 1) * d == s * d + d;
      MulMonotone(s + 1, SubBucketCount(), d);
      if b > 0 {
        MulMonotone(SubBucketHalfCount(), s, d);
      }
      BucketOfLength(value, b);
      InPairIsQuotient(value, b, s);
    }

    /** The normal pair that a slot stands for. */
    ghost function PairAt(index: nat): (nat, nat) {
      if index < SubBucketHalfCount() then (0, index)
      else
        QuotientPositive(index, SubBucketHalfCount());
        (index / SubBucketHalfCount() - 1, index % SubBucketHalfCount() + SubBucketHalfCount())
    }

    lemma PairAtFacts(index: nat)
      ensures var (b, s) := PairAt(index);
        && Normal(b, s)
        && CountsIndex(b, s) == index
        && ValueAtIndex(index) == ValueFromIndex(b, s)
    {
      hide Pow2, BitAnd;
      if index < SubBucketHalfCount() {
        LowPairFacts(index);
      } else {
        HighPairFacts(index);
      }
    }

    lemma LowPairFacts(index: nat)
      requires index < SubBucketHalfCount()
      ensures Normal(0, index) && CountsIndex(0, index) == index && ValueAtIndex(index) == ValueFromIndex(0, index)
    {
      hide BitAnd, Pow2;
      Pow2Next(halfCountMagnitude);
      BitAndLowMask(index, halfCountMagnitude);
      QuotientRemainder(index, SubBucketHalfCount(), 0, index);
    }

    lemma HighPairFacts(index: nat)
      requires SubBucketHalfCount() <= index
      ensures PairAt(index) == (index / SubBucketHalfCount() - 1, index % SubBucketHalfCount() + SubBucketHalfCount())
      ensures
        var b, s := PairAt(index).0, PairAt(index).1;
        Normal(b, s) && CountsIndex(b, s) == index && ValueAtIndex(index) == ValueFromIndex(b, s)
    {
      hide BitAnd, Pow2, ValueFromIndex;
      var n := SubBucketHalfCount();
      Pow2Next(halfCountMagnitude);
      BitAndLowMask(index, halfCountMagnitude);
      QuotientPositive(index, n);
      var q := index / n;
      assert n * q == q * n;
    }

    lemma PairAtOfNormal(b: nat, s: nat)
      requires Normal(b, s)
      ensures PairAt(CountsIndex(b, s)) == (b, s)
    {
      var n := SubBucketHalfCount();
      var index := CountsIndex(b, s);
      assert (b + 1) * n == b * n + n;
      if s < n {
      } else {
        assert n * (b + 1) == b * n + n;
        MulMonotone(0, b, n);
        QuotientRemainder(index, n, b + 1, s - n);
      }
    }

    /** Slot to value to slot is the identity. */
    lemma {:induction false} IndexOfValueAtIndex(index: nat)
      ensures CountsIndexFor(ValueAtIndex(index)) == index
      ensures LowestEquivalent(ValueAtIndex(index)) == ValueAtIndex(index)
    {
      hide BucketIndex, SubBucketIndex, PairAt, Pow2, ValueAtIndex;
      var (b, s) := PairAt(index);
      PairAtFacts(index);
      PairIsUnique(ValueAtIndex(index), b, s);
    }

    /** Value to slot to value is the lowest equivalent value. */
    lemma {:induction false} ValueAtIndexOfValue(value: nat)
      ensures ValueAtIndex(CountsIndexFor(value)) == LowestEquivalent(value)
    {
      hide BucketIndex, SubBucketIndex, PairAt, Pow2, ValueAtIndex, CountsIndex;
      PairOfValue(value);
      var b := BucketIndex(value);
      PairAtOfNormal(b, SubBucketIndex(value, b));
      PairAtFacts(CountsIndexFor(value));
    }

    lemma RangeSize(value: nat)
      ensures SizeOfEquivalentRange(value) == Pow2(BucketIndex(value) + unitMagnitude)
      ensures LowestEquivalent(value) <= value
              < LowestEquivalent(value) + SizeOfEquivalentRange(value)
    {
      hide BucketIndex, SubBucketIndex, Pow2;
      PairOfValue(value);
    }

    /** The normal pair after a normal pair, and how far its value lies ahead. */
    lemma NextPair(b: nat, s: nat) returns (b': nat, s': nat)
      requires Normal(b, s)
      ensures Normal(b', s')
      ensures CountsIndex(b', s') == CountsIndex(b, s) + 1
      ensures ValueFromIndex(b', s') == ValueFromIndex(b, s) + Pow2(b + unitMagnitude)
    {
      var d := Pow2(b + unitMagnitude);
      assert (s + 1) * d == s * d + d;
      if s + 1 < SubBucketCount() {
        b', s' := b, s + 1;
      } else {
        var n := SubBucketHalfCount();
        b', s' := b + 1, n;
        assert (b + 2) * n == (b + 1) * n + n;
        assert n * (2 * d) == (s + 1) * d;
      }
    }

    /** Consecutive slots meet with neither gap nor overlap. */
    lemma {:induction false} SlotsTile(index: nat)
      ensures ValueAtIndex(0) == 0
      ensures ValueAtIndex(index + 1) ==
              ValueAtIndex(index) + SizeOfEquivalentRange(ValueAtIndex(index))
    {
      hide BucketIndex, SubBucketIndex, Pow2, ValueAtIndex, CountsIndex, SizeOfEquivalentRange;
      PairAtFacts(0);
      PairAtFacts(index);
      var (b, s) := PairAt(index);
      PairIsUnique(ValueAtIndex(index), b, s);
      RangeSize(ValueAtIndex(index));
      var b', s' := NextPair(b, s);
      PairAtOfNormal(b', s');
      PairAtFacts(index + 1);
    }

    lemma {:induction false} ValueAtIndexIncreases(i: nat, j: nat)
      requires i < j
      ensures ValueAtIndex(i) < ValueAtIndex(j)
      decreases j
    {
      hide ValueAtIndex;
      SlotsTile(j - 1);
      RangeSize(ValueAtIndex(j - 1));
      if i < j - 1 {
        ValueAtIndexIncreases(i, j - 1);
      }
    }

    /** The equivalent range of a value ends where the next slot begins. */
    lemma RangeEndsAtNextSlot(value: nat)
      ensures ValueAtIndex(CountsIndexFor(value) + 1) ==
              LowestEquivalent(value) + SizeOfEquivalentRange(value)
    {
      hide BucketIndex, SubBucketIndex, Pow2, ValueAtIndex, CountsIndex;
      PairOfValue(value);
      ValueAtIndexOfValue(value);
      var b := BucketIndex(value);
      PairIsUnique(LowestEquivalent(value), b, SubBucketIndex(value, b));
      SlotsTile(CountsIndexFor(value));
    }

    /** A slot holds exactly the values from its own value up to the next slot's. */
    lemma {:induction false} SlotHoldsRange(value: nat, index: nat)
      ensures CountsIndexFor(value) == index <==>
              ValueAtIndex(index) <= value < ValueAtIndex(index + 1)
    {
      hide *;
      ValueAtIndexOfValue(value);
      RangeSize(value);
      RangeEndsAtNextSlot(value);
      var i := CountsIndexFor(value);
      if i + 1 < index {
        ValueAtIndexIncreases(i + 1, index);
      } else if index + 1 < i {
        ValueAtIndexIncreases(index + 1, i);
      }
    }

    lemma {:induction false} IndexIsMonotone(v: nat, w: nat)
      requires v <= w
      ensures CountsIndexFor(v) <= CountsIndexFor(w)
    {
      hide *;
      var i, j := CountsIndexFor(v), CountsIndexFor(w);
      SlotHoldsRange(v, i);
      SlotHoldsRange(w, j);
      if j + 1 < i {
        ValueAtIndexIncreases(j + 1, i);
      }
    }

    /** The representative of a slot has the equivalents of every value of the slot. */
    lemma EquivalentsOfSlot(value: nat)
      ensures HighestEquivalent(ValueAtIndex(CountsIndexFor(value))) == HighestEquivalent(value)
      ensures LowestEquivalent(ValueAtIndex(CountsIndexFor(value))) == LowestEquivalent(value)
    {
      hide BucketIndex, SubBucketIndex, Pow2, ValueAtIndex, CountsIndex;
      PairOfValue(value);
      ValueAtIndexOfValue(value);
      var b := BucketIndex(value);
      PairIsUnique(LowestEquivalent(value), b, SubBucketIndex(value, b));
    }

    lemma BoundaryValue(b: nat)
      ensures ValueAtIndex((b + 1) * SubBucketHalfCount()) ==
              Pow2(halfCountMagnitude + unitMagnitude + b)
    {
      hide ValueAtIndex;
      var n := SubBucketHalfCount();
      assert Normal(b, n);
      assert CountsIndex(b, n) == (b + 1) * n;
      PairAtOfNormal(b, n);
      PairAtFacts((b + 1) * n);
      Pow2Add(halfCountMagnitude, b + unitMagnitude);
    }

    /** Every trackable value has a slot inside the counts array. */
    lemma CountsLenIsBoundary()
      ensures CountsLen() == (bucketCount + 1) * SubBucketHalfCount()
    {
      Pow2Next(halfCountMagnitude);
    }

    lemma {:induction false} IndexInRange(value: nat)
      requires Valid() && value <= highestTrackable
      ensures CountsIndexFor(value) < CountsLen()
    {
      hide ValueAtIndex, CountsIndexFor, LowestEquivalent, SizeOfEquivalentRange, CountsLen, Pow2;
      CountsLenIsBoundary();
      BoundaryValue(bucketCount);
      ValueAtIndexOfValue(value);
      RangeSize(value);
      var i := CountsIndexFor(value);
      if CountsLen() < i {
        ValueAtIndexIncreases(CountsLen(), i);
      }
    }

    lemma MasksFit(value: nat)
      requires Valid() && value <= INT64_MAX
      ensures SubBucketMask() <= INT64_MAX && BitOr(value, SubBucketMask()) <= INT64_MAX
      ensures BucketIndex(value) + unitMagnitude + halfCountMagnitude <= 62
    {
      Pow2At63();
      MaskedLength(value);
      MaskLength();
      BitLengthAtMost(value, 63);
      Pow2Monotone(BitLength(SubBucketMask()), 63);
      Pow2Monotone(BitLength(BitOr(value, SubBucketMask())), 63);
    }

    lemma SubBucketsFit()
      requires Valid()
      ensures SubBucketCount() <= INT32_MAX
    {
      Pow2Monotone(halfCountMagnitude + 1, 23);
      Pow2At63();
    }

    lemma RangeEndFits(b: nat, s: nat)
      requires b + unitMagnitude + halfCountMagnitude <= 62 && s < SubBucketCount()
      ensures ValueFromIndex(b, s) + Pow2(b + unitMagnitude) <= INT64_MAX + 1
      ensures Pow2(b + unitMagnitude) <= INT64_MAX
    {
      Pow2Monotone(b + unitMagnitude, 62);
      var d := Pow2(b + unitMagnitude);
      MulMonotone(s + 1, SubBucketCount(), d);
      assert (s + 1) * d == s * d + d;
      Pow2Add(halfCountMagnitude + 1, b + unitMagnitude);
      Pow2Monotone(halfCountMagnitude + 1 + b + unitMagnitude, 63);
      Pow2At63();
    }

    /**
      No shift, sum or narrowing cast of the C++ code leaves its type for any 64-bit value, and
      the clamp in `highest_equivalent_value` only ever returns what the unclamped sum is.
     */
    /** The index arithmetic of any 64-bit value stays inside 32 bits, trackable or not. */
    lemma IndexFits(b: nat, s: nat)
      requires Valid() && b <= 62 && s < SubBucketCount()
      ensures (b + 1) * SubBucketHalfCount() <= INT32_MAX && CountsIndex(b, s) <= INT32_MAX
    {
      hide Pow2;
      HalfCountBound();
      Pow2Next(halfCountMagnitude);
      MulMonotone(b + 1, 63, SubBucketHalfCount());
    }

    lemma HalfCountBound()
      requires Valid()
      ensures 64 * SubBucketHalfCount() <= INT32_MAX
    {
      hide Pow2;
      Pow2At63();
      Pow2Monotone(halfCountMagnitude, 17);
      Pow2Add(6, 17);
      SixtyFour();
    }

    static lemma SixtyFour()
      ensures Pow2(6) == 64
    {
    }

    lemma {:induction false} NoOverflow(value: nat)
      requires Valid() && value <= INT64_MAX
      ensures SubBucketMask() <= INT64_MAX && BitOr(value, SubBucketMask()) <= INT64_MAX
      ensures BucketIndex(value) + unitMagnitude <= 62
      ensures SubBucketIndex(value, BucketIndex(value)) < SubBucketCount() <= INT32_MAX
      ensures (BucketIndex(value) + 1) * SubBucketHalfCount() <= INT32_MAX && CountsIndexFor(value) <= INT32_MAX
      ensures LowestEquivalent(value) <= INT64_MAX && SizeOfEquivalentRange(value) <= INT64_MAX
      ensures HighestEquivalent(value) ==
              LowestEquivalent(value) + SizeOfEquivalentRange(value) - 1 <= INT64_MAX
    {
      hide BucketIndex, SubBucketIndex, CountsIndex, Pow2, SubBucketMask, SizeOfEquivalentRange, Valid;
      MasksFit(value);
      PairOfValue(value);
      IndexFits(BucketIndex(value), SubBucketIndex(value, BucketIndex(value)));
      RangeSize(value);
      RangeEndFits(BucketIndex(value), SubBucketIndex(value, BucketIndex(value)));
      SubBucketsFit();
    }

    /** Every slot of the array has a 32-bit index and a 64-bit value. */
    lemma {:induction false} SlotsFitTypes(index: nat)
      requires Valid() && index < CountsLen()
      ensures CountsLen() <= INT32_MAX
      ensures ValueAtIndex(index) <= INT64_MAX
    {
      hide ValueAtIndex, CountsLen, Pow2;
      Pow2At63();
      CountsLenIsBoundary();
      BoundaryValue(bucketCount);
      ValueAtIndexIncreases(index, CountsLen());
      Pow2Monotone(halfCountMagnitude + unitMagnitude + bucketCount, 63);
      HalfCountBound();
      MulMonotone(bucketCount + 1, 64, SubBucketHalfCount());
    }

    lemma {:induction false} HighestIsMonotone(v: nat, w: nat)
      requires Valid() && v <= w <= INT64_MAX
      ensures HighestEquivalent(v) <= HighestEquivalent(w)
    {
      hide *;
      NoOverflow(v);
      NoOverflow(w);
      IndexIsMonotone(v, w);
      RangeEndsAtNextSlot(v);
      RangeEndsAtNextSlot(w);
      var i, j := CountsIndexFor(v), CountsIndexFor(w);
      if i < j {
        ValueAtIndexIncreases(i + 1, j + 1);
      }
    }

    lemma ExcessIsSmall(excess: nat, d: nat, p: nat, n: nat, s: nat)
      requires excess < d && 1 <= p <= n <= s
      ensures excess * p < s * d
    {
      MulMonotone(n, s, d);
      MulMonotone(p, n, d);
      MulMonotone(excess + 1, d, p);
      assert (excess + 1) * p == excess * p + p;
      assert p * d == d * p;
    }

    /**
      The promised precision: the highest equivalent of a value exceeds it by less than one
      discernible unit, or by less than one part in `10^significantFigures`.
     */
    lemma {:induction false} RelativePrecision(value: nat)
      requires Valid() && value <= INT64_MAX
      ensures value <= HighestEquivalent(value)
      ensures || HighestEquivalent(value) - value <= Pow2(unitMagnitude) - 1
              || (HighestEquivalent(value) - value) * Pow10(significantFigures) < value
    {
      hide BucketIndex, SubBucketIndex, Pow2, Pow10, SizeOfEquivalentRange, HighestEquivalent;
      NoOverflow(value);
      RangeSize(value);
      PairOfValue(value);
      var b := BucketIndex(value);
      if b > 0 {
        ExcessIsSmall(HighestEquivalent(value) - value, Pow2(b + unitMagnitude),
                      Pow10(significantFigures), SubBucketHalfCount(), SubBucketIndex(value, b));
      }
    }
  }
}
