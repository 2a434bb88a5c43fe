/**
  Powers of two and ten, bit lengths and the bitwise operators of the C++ source, all on
  unbounded naturals.  A left shift by `k` is multiplication by `Pow2(k)`, a right shift is
  division by `Pow2(k)`.
 */
module Powers {

  const INT64_MAX: int := 0x7fff_ffff_ffff_ffff
  const INT32_MAX: int := 0x7fff_ffff
  const U64_MAX: int := 0xffff_ffff_ffff_ffff

  function Pow2(n: nat): (p: nat)
    ensures p >= 1
  {
    if n == 0 then 1 else 2 * Pow2(n - 1)
  }

  function Pow10(n: nat): (p: nat)
    ensures p >= 1
  {
    if n == 0 then 1 else 10 * Pow10(n - 1)
  }

  lemma {:induction false} Pow2Add(a: nat, b: nat)
    ensures Pow2(a + b) == Pow2(a) * Pow2(b)
  {
    if a == 0 {
    } else {
      Pow2Add(a - 1, b);
      assert Pow2(a + b) == 2 * Pow2(a - 1 + b);
      assert 2 * (Pow2(a - 1) * Pow2(b)) == (2 * Pow2(a - 1)) * Pow2(b);
    }
  }

  lemma Pow2Next(n: nat)
    ensures Pow2(n + 1) == 2 * Pow2(n)
  {
  }

  lemma {:induction false} Pow2Monotone(a: nat, b: nat)
    requires a <= b
    ensures Pow2(a) <= Pow2(b)
    decreases b - a
  {
    if a < b {
      Pow2Monotone(a, b - 1);
    }
  }

  lemma {:induction false} Pow10Add(a: nat, b: nat)
    ensures Pow10(a + b) == Pow10(a) * Pow10(b)
  {
    if a == 0 {
    } else {
      Pow10Add(a - 1, b);
      assert Pow10(a + b) == 10 * Pow10(a - 1 + b);
      assert 10 * (Pow10(a - 1) * Pow10(b)) == (10 * Pow10(a - 1)) * Pow10(b);
    }
  }

  lemma Pow2At63()
    ensures Pow2(62) == INT64_MAX / 2 + 1
    ensures Pow2(63) == INT64_MAX + 1
    ensures Pow2(23) < INT32_MAX
  {
    assert Pow2(8) == 256;
    Pow2Add(8, 8);
    Pow2Add(7, 16);
    Pow2Add(8, 23);
    assert Pow2(31) == 2_147_483_648;
    Pow2Add(31, 31);
  }

  /** The number of bits of `n`, which is `64 - countl_zero(n)` for a 64-bit `n`. */
  function BitLength(n: nat): (len: nat)
    ensures n < Pow2(len)
    ensures n > 0 ==> len > 0 && Pow2(len - 1) <= n
  {
    if n == 0 then 0 else 1 + BitLength(n / 2)
  }

  lemma BitLengthUnique(n: nat, k: nat)
    requires Pow2(k) <= n < Pow2(k + 1)
    ensures BitLength(n) == k + 1
  {
    var len := BitLength(n);
    if len < k + 1 {
      Pow2Monotone(len, k);
    } else if len > k + 1 {
      Pow2Monotone(k + 1, len - 1);
    }
  }

  lemma BitLengthAtMost(n: nat, k: nat)
    requires n < Pow2(k)
    ensures BitLength(n) <= k
  {
    if n > 0 && k < BitLength(n) {
      Pow2Monotone(k, BitLength(n) - 1);
    }
  }

  function BitOr(a: nat, b: nat): nat {
    if a == 0 && b == 0 then 0
    else 2 * BitOr(a / 2, b / 2) + (if a % 2 == 1 || b % 2 == 1 then 1 else 0)
  }

  function BitAnd(a: nat, b: nat): nat {
    if a == 0 || b == 0 then 0
    else 2 * BitAnd(a / 2, b / 2) + (if a % 2 == 1 && b % 2 == 1 then 1 else 0)
  }

  function Max(a: int, b: int): int {
    if a >= b then a else b
  }

  lemma {:induction false} BitLengthOfOr(a: nat, b: nat)
    ensures BitLength(BitOr(a, b)) == Max(BitLength(a), BitLength(b))
  {
    if a == 0 && b == 0 {
    } else {
      BitLengthOfOr(a / 2, b / 2);
      assert BitOr(a, b) / 2 == BitOr(a / 2, b / 2);
      assert BitOr(a, b) > 0 by {
        if BitOr(a / 2, b / 2) == 0 {
          assert BitLength(a / 2) == 0 && BitLength(b / 2) == 0;
        }
      }
    }
  }

  lemma BitAndStep(a: nat, b: nat)
    requires b % 2 == 1
    ensures BitAnd(a, b) == 2 * BitAnd(a / 2, b / 2) + a % 2
  {
  }

  lemma MaskHalves(p: nat)
    requires p >= 1
    ensures (2 * p - 1) / 2 == p - 1 && (2 * p - 1) % 2 == 1
  {
  }

  lemma {:induction false} BitAndLowMask(a: nat, k: nat)
    ensures BitAnd(a, Pow2(k) - 1) == a % Pow2(k)
  {
    hide BitAnd, Pow2;
    if k == 0 {
      BitAndZero(a);
    } else {
      var p := Pow2(k - 1);
      Pow2Next(k - 1);
      BitAndLowMask(a / 2, k - 1);
      MaskHalves(p);
      BitAndStep(a, 2 * p - 1);
      RemainderByTwice(a, p);
    }
  }

  lemma BitAndZero(a: nat)
    ensures Pow2(0) == 1 && BitAnd(a, 0) == 0 == a % 1
  {
  }

  function ShiftRight(v: nat, k: nat): nat {
    DivisionIsNat(v, Pow2(k));
    v / Pow2(k)
  }

  lemma DivisionIsNat(v: nat, d: nat)
    requires d > 0
    ensures v / d >= 0
  {
  }

  lemma RemainderByTwice(a: nat, p: nat)
    requires p > 0
    ensures a % (2 * p) == 2 * (a / 2 % p) + a % 2
  {
    var half := a / 2;
    var q, m := half / p, half % p;
    assert half == p * q + m;
    assert (2 * p) * q == 2 * (p * q);
    QuotientRemainder(a, 2 * p, q, 2 * m + a % 2);
  }

  lemma QuotientRemainder(v: nat, d: nat, q: nat, m: nat)
    requires d > 0 && v == d * q + m && m < d
    ensures v / d == q && v % d == m
  {
    var q', m' := v / d, v % d;
    assert v == d * q' + m';
    assert q * d == d * q && q' * d == d * q';
    if q' < q {
      assert (q' + 1) * d == q' * d + d;
      MulMonotone(q' + 1, q, d);
    } else if q < q' {
      assert (q + 1) * d == q * d + d;
      MulMonotone(q + 1, q', d);
    }
  }

  /** Division by `d` is monotone against multiples of `d`. */
  lemma QuotientBounds(v: nat, d: nat, lo: nat, hi: nat)
    requires d > 0 && lo * d <= v < hi * d
    ensures lo <= v / d < hi
    ensures v / d * d <= v < (v / d + 1) * d
  {
    var q := v / d;
    assert v == d * q + v % d;
    assert q * d <= v < (q + 1) * d by {
      assert (q + 1) * d == q * d + d;
      assert q * d == d * q;
    }
    if q < lo {
      MulMonotone(q + 1, lo, d);
    }
    if q >= hi {
      MulMonotone(hi, q, d);
    }
  }

  lemma QuotientPositive(v: nat, d: nat)
    requires 0 < d <= v
    ensures v / d >= 1 && v == d * (v / d) + v % d
  {
    var q := v / d;
    assert v == d * q + v % d;
    if q <= 0 {
      MulMonotone(q, 0, d);
    }
  }

  lemma MulMonotone(a: int, b: int, d: nat)
    requires a <= b
    ensures a * d <= b * d
  {
    assert (b - a) * d >= 0;
    assert (b - a) * d == b * d - a * d;
  }

  /** The exact floor of the base-2 logarithm. */
  function FloorLog2(n: nat): (r: nat)
    requires n >= 1
    ensures Pow2(r) <= n < Pow2(r + 1)
  {
    BitLength(n) - 1
  }

  /** The exact ceiling of the base-2 logarithm. */
  function CeilLog2(n: nat): (r: nat)
    requires n >= 2
    ensures r >= 1 && Pow2(r - 1) < n <= Pow2(r)
  {
    BitLength(n - 1)
  }
}
