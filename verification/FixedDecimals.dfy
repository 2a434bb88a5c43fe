/**
  Exact base-10 values: parsing, formatting with its memo, alignment, order, the canonical
  representative and exact rescaling.
 */
module FixedDecimals {
  import opened Powers
  import opened Wrappers

  const MAX_SCALE: nat := 18

  datatype Decimal = Decimal(coefficient: int, scale: nat)

  /** A decimal the constructor accepts: its scale is at most 18. */
  type FixedDecimal = d: Decimal | d.scale <= MAX_SCALE witness Decimal(0, 0)

  datatype DecimalError = InvalidPlainDecimal | ExceedsAllowedScale | LosesPrecision | InvalidScale

  // ----- digit strings -----

  predicate IsDigit(c: char) { '0' <= c <= '9' }

  predicate AllDigits(s: string) { forall i :: 0 <= i < |s| ==> IsDigit(s[i]) }

  function DigitChar(d: nat): (c: char)
    requires d < 10
    ensures IsDigit(c) && DigitValue(c) == d
  {
    '0' + d as char
  }

  function DigitValue(c: char): (d: nat)
    requires IsDigit(c)
    ensures d < 10
    ensures d == 0 <==> c == '0'
  {
    c as int - '0' as int
  }

  /** The number a digit string denotes, with leading zeros allowed; 0 for the empty string. */
  function NatOf(s: string): (n: nat)
    requires AllDigits(s)
  {
    if s == [] then 0
    else 10 * NatOf(s[..|s| - 1]) + DigitValue(s[|s| - 1])
  }

  /** The decimal digits of a natural, without leading zeros. */
  function DigitsOf(n: nat): (s: string)
    ensures AllDigits(s) && |s| >= 1
    ensures n > 0 ==> s[0] != '0'
  {
    if n < 10 then [DigitChar(n)]
    else DigitsOf(n / 10) + [DigitChar(n % 10)]
  }

  function Zeros(n: nat): (s: string)
    ensures AllDigits(s) && |s| == n
  {
    seq(n, _ => '0')
  }

  /** `str.rjust(width, "0")`. */
  function PadLeft(s: string, width: nat): (r: string)
    ensures |r| >= |s| && |r| >= width
  {
    if |s| >= width then s else Zeros(width - |s|) + s
  }

  lemma {:induction false} NatOfDigits(n: nat)
    ensures NatOf(DigitsOf(n)) == n
  {
    if n < 10 {
      assert DigitsOf(n)[..0] == [];
    } else {
      NatOfDigits(n / 10);
      var s := DigitsOf(n);
      assert s[..|s| - 1] == DigitsOf(n / 10);
    }
  }

  lemma {:induction false} NatOfPadded(k: nat, s: string)
    requires AllDigits(s)
    ensures AllDigits(Zeros(k) + s)
    ensures NatOf(Zeros(k) + s) == NatOf(s)
  {
    var t := Zeros(k) + s;
    if s == [] {
      assert t == Zeros(k);
      if k > 0 {
        assert t[..|t| - 1] == Zeros(k - 1) + [];
        NatOfPadded(k - 1, []);
      }
    } else {
      assert t[..|t| - 1] == Zeros(k) + s[..|s| - 1];
      NatOfPadded(k, s[..|s| - 1]);
    }
  }

  /** Every non-empty digit string is the zero-padded digits of the number it denotes. */
  lemma {:induction false} PaddedDigits(s: string)
    requires AllDigits(s) && |s| >= 1
    ensures |DigitsOf(NatOf(s))| <= |s|
    ensures PadLeft(DigitsOf(NatOf(s)), |s|) == s
    ensures s[0] != '0' || s == "0" ==> DigitsOf(NatOf(s)) == s
  {
    var last := |s| - 1;
    var front, d := s[..last], DigitValue(s[last]);
    assert s == front + [s[last]];
    OneDigit(s[last]);
    if last > 0 {
      hide PadLeft, DigitsOf, NatOf;
      PaddedDigits(front);
      NatOfLast(s);
      var m := NatOf(front);
      if m == 0 {
        PadZero(front, [s[last]]);
      } else {
        DigitsOfLast(m, d);
        PadShift(DigitsOf(m), |front|, s[last]);
      }
    }
  }

  lemma OneDigit(c: char)
    requires IsDigit(c)
    ensures DigitChar(DigitValue(c)) == c && DigitsOf(DigitValue(c)) == [c] && NatOf([c]) == DigitValue(c)
  {
    assert [c][..0] == [];
  }

  lemma NatOfLast(s: string)
    requires AllDigits(s) && s != []
    ensures NatOf(s) == NatOf(s[..|s| - 1]) * 10 + DigitValue(s[|s| - 1])
  {
  }

  lemma DigitsOfLast(m: nat, d: nat)
    requires m > 0 && d < 10
    ensures DigitsOf(m * 10 + d) == DigitsOf(m) + [DigitChar(d)]
  {
    assert (m * 10 + d) / 10 == m && (m * 10 + d) % 10 == d;
  }

  lemma PadShift(t: string, width: nat, c: char)
    ensures PadLeft(t + [c], width + 1) == PadLeft(t, width) + [c]
  {
    if |t| < width {
      assert Zeros(width - |t|) + (t + [c]) == Zeros(width - |t|) + t + [c];
    }
  }

  lemma PadZero(front: string, one: string)
    requires AllDigits(front) && |front| >= 1 && |one| == 1
    requires NatOf(front) == 0
    ensures PadLeft(one, |front| + 1) == front + one
    ensures front[0] == '0'
  {
    hide NatOf, DigitsOf, AllZeros, Zeros, AllDigits;
    ZeroIsAllZeros(front);
    ZerosOnly(front);
  }

  lemma ZerosOnly(s: string)
    requires AllZeros(s)
    ensures s == Zeros(|s|) && (|s| > 0 ==> s[0] == '0')
  {
  }

  // ----- parsing and formatting -----

  function IndexOf(s: string, c: char): (k: nat)
    ensures k <= |s|
    ensures forall i :: 0 <= i < k ==> s[i] != c
    ensures k < |s| ==> s[k] == c
  {
    if s == [] || s[0] == c then 0 else 1 + IndexOf(s[1..], c)
  }

  /** The pattern `-?(0|[1-9][0-9]*)(\.[0-9]+)?`, split into sign, whole part and fraction. */
  datatype PlainDecimal = PlainDecimal(negative: bool, whole: string, fraction: string)
  {
    ghost predicate Valid() {
      && AllDigits(whole) && |whole| >= 1 && (whole[0] != '0' || whole == "0")
      && AllDigits(fraction)
    }

    ghost function Unsigned(): string {
      whole + (if fraction == [] then "" else "." + fraction)
    }

    /** The only text that splits into this value. */
    ghost function Text(): string {
      (if negative then "-" else "") + Unsigned()
    }
  }

  function SplitUnsigned(negative: bool, body: string): Option<PlainDecimal> {
    var dot := IndexOf(body, '.');
    var whole := body[..dot];
    if !AllDigits(whole) || |whole| == 0 || !(whole[0] != '0' || whole == "0") then None
    else if dot == |body| then Some(PlainDecimal(negative, whole, ""))
    else
      var fraction := body[dot + 1..];
      if |fraction| == 0 || !AllDigits(fraction) then None
      else Some(PlainDecimal(negative, whole, fraction))
  }

  function Split(text: string): Option<PlainDecimal> {
    if |text| > 0 && text[0] == '-' then SplitUnsigned(true, text[1..])
    else SplitUnsigned(false, text)
  }

  lemma UnsignedOfSplit(negative: bool, body: string)
    requires SplitUnsigned(negative, body).Some?
    ensures SplitUnsigned(negative, body).value.Valid()
    ensures SplitUnsigned(negative, body).value.Unsigned() == body
    ensures SplitUnsigned(negative, body).value.negative == negative
    ensures |body| > 0 && IsDigit(body[0])
  {
    hide IndexOf;
    var dot := IndexOf(body, '.');
    if dot < |body| {
      assert body == body[..dot] + ("." + body[dot + 1..]);
    } else {
      assert body == body[..dot] + "";
    }
  }

  lemma TextOfSplit(text: string)
    requires Split(text).Some?
    ensures Split(text).value.Valid() && Split(text).value.Text() == text
    ensures |text| > 0 && Split(text).value.negative == (text[0] == '-')
  {
    hide SplitUnsigned, PlainDecimal.Unsigned, PlainDecimal.Valid;
    if |text| > 0 && text[0] == '-' {
      UnsignedOfSplit(true, text[1..]);
      assert text == "-" + text[1..];
    } else {
      UnsignedOfSplit(false, text);
      assert text == "" + text;
    }
  }

  lemma DotOfUnsigned(p: PlainDecimal)
    requires p.Valid()
    ensures IndexOf(p.Unsigned(), '.') == |p.whole|
  {
    hide IndexOf;
    var body := p.Unsigned();
    assert forall i :: 0 <= i < |p.whole| ==> body[i] == p.whole[i] && IsDigit(body[i]);
    if p.fraction != [] {
      assert body[|p.whole|] == '.';
    }
  }

  lemma SplitOfUnsigned(p: PlainDecimal)
    requires p.Valid()
    ensures SplitUnsigned(p.negative, p.Unsigned()) == Some(p)
  {
    hide IndexOf;
    DotOfUnsigned(p);
    var body := p.Unsigned();
    assert body[..|p.whole|] == p.whole;
    if p.fraction != [] {
      assert body[|p.whole| + 1..] == p.fraction;
    }
  }

  lemma SplitOfText(p: PlainDecimal)
    requires p.Valid()
    ensures Split(p.Text()) == Some(p)
  {
    hide SplitUnsigned;
    SplitOfUnsigned(p);
    var body := p.Unsigned();
    if p.negative {
      assert p.Text()[1..] == body;
    } else {
      assert p.Text() == body;
      assert body[0] == p.whole[0];
    }
  }

  /** `FixedDecimal.parse`. */
  function Parse(text: string, maxScale: nat := MAX_SCALE): (r: Result<FixedDecimal, DecimalError>)
  {
    var split := Split(text);
    if split.None? then Err(InvalidPlainDecimal)
    else
      TextOfSplit(text);
      var p := split.value;
      if |p.fraction| > maxScale then Err(ExceedsAllowedScale)
      else if |p.fraction| > MAX_SCALE then Err(InvalidScale)
      else
        var magnitude: int := NatOf(p.whole + p.fraction);
        Ok(Decimal(if p.negative then -magnitude else magnitude, |p.fraction|))
  }

  /** The text is a sign, digits without a leading zero and a fraction, and this number. */
  ghost predicate Writes(p: PlainDecimal, text: string, d: FixedDecimal) {
    && p.Valid() && p.Text() == text && |p.fraction| == d.scale
    && d.coefficient == (if p.negative then -1 else 1) * NatOf(p.whole + p.fraction)
  }

  /** A text is parsed exactly when it writes a number with no more fraction digits than allowed. */
  lemma {:induction false} ParseIsExact(text: string, maxScale: nat, d: FixedDecimal)
    ensures Parse(text, maxScale) == Ok(d) <==> d.scale <= maxScale && exists p :: Writes(p, text, d)
    ensures Parse(text, maxScale) == Err(ExceedsAllowedScale) <==>
            exists p: PlainDecimal :: p.Valid() && p.Text() == text && |p.fraction| > maxScale
    ensures Parse(text, maxScale) == Err(InvalidPlainDecimal) <==> forall p: PlainDecimal :: p.Valid() ==> p.Text() != text
  {
    hide Split, NatOf;
    if Split(text).Some? {
      TextOfSplit(text);
      var q := Split(text).value;
      assert q.Valid() && q.Text() == text;
      forall p: PlainDecimal | p.Valid() && p.Text() == text ensures p == q {
        SplitOfText(p);
      }
      if Parse(text, maxScale) == Ok(d) {
        assert Writes(q, text, d);
      }
    } else {
      forall p: PlainDecimal | p.Valid() ensures p.Text() != text {
        SplitOfText(p);
      }
    }
  }

  function Abs(x: int): nat {
    if x < 0 then -x else x
  }

  /** `FixedDecimal.__str__` without its cache. */
  function Format(d: FixedDecimal): string {
    var sign := if d.coefficient < 0 then "-" else "";
    var digits := DigitsOf(Abs(d.coefficient));
    if d.scale == 0 then sign + digits
    else
      var padded := PadLeft(digits, d.scale + 1);
      sign + padded[..|padded| - d.scale] + "." + padded[|padded| - d.scale..]
  }

  /** The parts of a formatted decimal. */
  ghost function Parts(d: FixedDecimal): PlainDecimal {
    var padded := PadLeft(DigitsOf(Abs(d.coefficient)), d.scale + 1);
    PlainDecimal(d.coefficient < 0, padded[..|padded| - d.scale], padded[|padded| - d.scale..])
  }

  lemma PaddedFacts(n: nat, width: nat)
    ensures var padded := PadLeft(DigitsOf(n), width);
      && AllDigits(padded)
      && NatOf(padded) == n
      && (padded[0] == '0' ==> |padded| <= width || padded == "0")
  {
    var digits := DigitsOf(n);
    NatOfDigits(n);
    if |digits| < width {
      NatOfPadded(width - |digits|, digits);
    } else if digits[0] == '0' {
      assert digits == "0";
    }
  }

  lemma PartsOfFormat(d: FixedDecimal)
    ensures Parts(d).Valid() && Parts(d).Text() == Format(d)
    ensures AllDigits(Parts(d).whole + Parts(d).fraction)
    ensures NatOf(Parts(d).whole + Parts(d).fraction) == Abs(d.coefficient)
    ensures |Parts(d).fraction| == d.scale
  {
    hide DigitsOf, PadLeft, NatOf, AllDigits, PlainDecimal.Valid, PlainDecimal.Text, Format;
    var padded, p := PadLeft(DigitsOf(Abs(d.coefficient)), d.scale + 1), Parts(d);
    assert p.whole + p.fraction == padded;
    PaddedFacts(Abs(d.coefficient), d.scale + 1);
    PartsAreValid(d, padded);
    PartsText(d);
  }

  lemma PartsAreValid(d: FixedDecimal, padded: string)
    requires padded == PadLeft(DigitsOf(Abs(d.coefficient)), d.scale + 1) && AllDigits(padded)
    requires padded[0] == '0' ==> |padded| <= d.scale + 1 || padded == "0"
    ensures Parts(d).Valid()
  {
    hide DigitsOf, PadLeft;
    assert Parts(d).whole[0] == padded[0];
  }

  lemma PartsText(d: FixedDecimal)
    ensures Parts(d).Text() == Format(d)
  {
    hide DigitsOf, PadLeft;
    var p := Parts(d);
    if d.scale == 0 {
      UnpaddedDigits(Abs(d.coefficient));
      assert p.whole == DigitsOf(Abs(d.coefficient)) && p.fraction == "";
    }
  }

  lemma UnpaddedDigits(n: nat)
    ensures PadLeft(DigitsOf(n), 1) == DigitsOf(n)
  {
  }

  /** Formatting then parsing gives the value back, at every scale. */
  lemma {:induction false} ParseOfFormat(d: FixedDecimal)
    ensures Parse(Format(d)) == Ok(d)
  {
    hide Split, Format, Parts, NatOf;
    PartsOfFormat(d);
    SplitOfText(Parts(d));
    assert Parts(d).negative == (d.coefficient < 0) by {
      SignOfParts(d);
    }
  }

  lemma SignOfParts(d: FixedDecimal)
    ensures Parts(d).negative == (d.coefficient < 0)
  {
  }

  lemma {:induction false} FormatIsInjective(d: FixedDecimal, e: FixedDecimal)
    requires Format(d) == Format(e)
    ensures d == e
  {
    hide Format, Parse;
    ParseOfFormat(d);
    ParseOfFormat(e);
  }

  /** A minus sign followed by zeros and at most a point. */
  predicate NegativeZero(text: string) {
    |text| > 0 && text[0] == '-' && forall i :: 0 < i < |text| ==> text[i] == '0' || text[i] == '.'
  }

  predicate AllZeros(s: string) {
    forall i :: 0 <= i < |s| ==> s[i] == '0'
  }

  lemma {:induction false} ZeroIsAllZeros(s: string)
    requires AllDigits(s)
    ensures NatOf(s) == 0 <==> AllZeros(s)
  {
    if s != [] {
      var last := |s| - 1;
      ZeroIsAllZeros(s[..last]);
      assert s == s[..last] + [s[last]];
    }
  }

  /** The text of a negative plain decimal is a negative zero exactly when its digits are zeros. */
  lemma TextOfZero(p: PlainDecimal)
    requires p.Valid() && p.negative
    ensures NegativeZero(p.Text()) <==> AllZeros(p.whole) && AllZeros(p.fraction)
  {
    var text, w := p.Text(), |p.whole|;
    assert text[0] == '-' && forall i :: 0 <= i < w ==> text[i + 1] == p.whole[i];
    if p.fraction != [] {
      assert text[w + 1] == '.' && forall i :: 0 <= i < |p.fraction| ==> text[i + w + 2] == p.fraction[i];
    }
    if NegativeZero(text) {
      forall i | 0 <= i < w ensures p.whole[i] == '0' {
        assert text[i + 1] == p.whole[i];
      }
      forall i | 0 <= i < |p.fraction| ensures p.fraction[i] == '0' {
        assert text[i + w + 2] == p.fraction[i];
      }
    }
    if AllZeros(p.whole) && AllZeros(p.fraction) {
      forall i | 0 < i < |text| ensures text[i] == '0' || text[i] == '.' {
        if i <= w {
          assert text[i] == p.whole[i - 1];
        } else if i > w + 1 {
          assert text[i] == p.fraction[i - w - 2];
        }
      }
    }
  }

  /** A parsed text is printed back unchanged exactly when it is not a negative zero. */
  lemma {:induction false} FormatOfParse(text: string)
    requires Parse(text).Ok?
    ensures Format(Parse(text).value) == text <==> !NegativeZero(text)
  {
    hide Format, NatOf, Split, Parts, NegativeZero, AllZeros;
    TextOfSplit(text);
    var p := Split(text).value;
    var d := Parse(text).value;
    PartsOfParsed(p, d);
    PartsOfFormat(d);
    SplitOfText(Parts(d));
    NegativeZeroIsNegative(text);
    if p.negative {
      TextOfZero(p);
      ZeroIsAllZeros(p.whole + p.fraction);
      ZerosConcat(p.whole, p.fraction);
    }
    if !(p.negative && d.coefficient == 0) {
      assert Parts(d) == p;
    }
  }

  /** Such a text exists: `-0` parses and prints as `0`. */
  lemma {:induction false} NegativeZeroIsNotKept()
    ensures NegativeZero("-0") && Parse("-0").Ok? && Format(Parse("-0").value) != "-0"
  {
    hide Format;
    assert "-0"[1..] == "0" && IndexOf("0", '.') == 1 by {
      assert "0"[1..] == "";
    }
    assert "0"[..1] == "0" && "0" + "" == "0";
    assert Split("-0") == Some(PlainDecimal(true, "0", ""));
    FormatOfParse("-0");
  }

  lemma NegativeZeroIsNegative(text: string)
    ensures NegativeZero(text) ==> |text| > 0 && text[0] == '-'
  {
  }

  lemma ZerosConcat(a: string, b: string)
    ensures AllZeros(a + b) <==> AllZeros(a) && AllZeros(b)
  {
    assert forall i :: 0 <= i < |a| ==> (a + b)[i] == a[i];
    assert forall i :: 0 <= i < |b| ==> (a + b)[i + |a|] == b[i];
    if AllZeros(a + b) {
      forall i | 0 <= i < |b| ensures b[i] == '0' {
        assert (a + b)[i + |a|] == b[i];
      }
    }
  }

  lemma PartsOfParsed(p: PlainDecimal, d: FixedDecimal)
    requires p.Valid() && |p.fraction| == d.scale
    requires AllDigits(p.whole + p.fraction)
    requires Abs(d.coefficient) == NatOf(p.whole + p.fraction)
    ensures Parts(d) == PlainDecimal(d.coefficient < 0, p.whole, p.fraction)
  {
    var digits := p.whole + p.fraction;
    PaddedDigits(digits);
    if p.whole == "0" {
      assert |digits| == d.scale + 1;
    } else {
      assert digits[0] == p.whole[0] != '0';
      assert DigitsOf(NatOf(digits)) == digits;
    }
    assert PadLeft(DigitsOf(NatOf(digits)), d.scale + 1) == digits;
    assert digits[..|p.whole|] == p.whole && digits[|p.whole|..] == p.fraction;
  }

  // ----- alignment, order and the canonical representative -----

  /** The coefficient at scale 18, where every decimal is a whole number of units. */
  ghost function Units(d: FixedDecimal): int {
    d.coefficient * Pow10(MAX_SCALE - d.scale)
  }

  /** `_aligned`: both coefficients at the larger of the two scales. */
  function Aligned(x: FixedDecimal, y: FixedDecimal): (int, int) {
    var scale := Max(x.scale, y.scale);
    (x.coefficient * Pow10(scale - x.scale), y.coefficient * Pow10(scale - y.scale))
  }

  predicate Less(x: FixedDecimal, y: FixedDecimal) {
    Aligned(x, y).0 < Aligned(x, y).1
  }

  lemma AlignedUnits(x: FixedDecimal, y: FixedDecimal)
    ensures
      var scale := Max(x.scale, y.scale);
      && Aligned(x, y).0 * Pow10(MAX_SCALE - scale) == Units(x)
      && Aligned(x, y).1 * Pow10(MAX_SCALE - scale) == Units(y)
  {
    hide Pow10, Units;
    var scale: nat := Max(x.scale, y.scale);
    ScaledUnits(x, scale);
    ScaledUnits(y, scale);
  }

  lemma ScaledUnits(d: FixedDecimal, scale: nat)
    requires d.scale <= scale <= MAX_SCALE
    ensures d.coefficient * Pow10(scale - d.scale) * Pow10(MAX_SCALE - scale) == Units(d)
  {
    hide Pow10;
    assert scale - d.scale + (MAX_SCALE - scale) == MAX_SCALE - d.scale;
    ScaleTwice(d.coefficient, scale - d.scale, MAX_SCALE - scale);
  }

  lemma ScaleTwice(c: int, a: nat, b: nat)
    ensures c * Pow10(a) * Pow10(b) == c * Pow10(a + b)
  {
    Pow10Add(a, b);
    assert c * Pow10(a) * Pow10(b) == c * (Pow10(a) * Pow10(b));
  }

  lemma MulOrder(a: int, b: int, p: nat)
    requires p >= 1
    ensures a < b <==> a * p < b * p
    ensures a == b <==> a * p == b * p
  {
    if a < b {
      MulMonotone(a + 1, b, p);
      assert (a + 1) * p == a * p + p;
    } else if b < a {
      MulMonotone(b + 1, a, p);
      assert (b + 1) * p == b * p + p;
    }
  }

  /** The order compares numeric values, so it is a strict weak order. */
  lemma {:induction false} LessIsNumeric(x: FixedDecimal, y: FixedDecimal)
    ensures Less(x, y) <==> Units(x) < Units(y)
    ensures Aligned(x, y).0 == Aligned(x, y).1 <==> Units(x) == Units(y)
  {
    hide Pow10, Units, Aligned;
    AlignedUnits(x, y);
    var scale: nat := Max(x.scale, y.scale);
    MulOrder(Aligned(x, y).0, Aligned(x, y).1, Pow10(MAX_SCALE - scale));
  }

  predicate IsCanonical(d: FixedDecimal) {
    d.scale == 0 || d.coefficient % 10 != 0
  }

  /** `canonical`, whose loop drops trailing zeros of the fraction. */
  function Canonical(d: FixedDecimal): (c: FixedDecimal)
    ensures IsCanonical(c) && Units(c) == Units(d)
    ensures c.scale <= d.scale
    decreases d.scale
  {
    if d.scale > 0 && d.coefficient % 10 == 0 then
      DropZero(d);
      Canonical(Decimal(d.coefficient / 10, d.scale - 1))
    else d
  }

  lemma DropZero(d: FixedDecimal)
    requires d.scale > 0 && d.coefficient % 10 == 0
    ensures Units(Decimal(d.coefficient / 10, d.scale - 1)) == Units(d)
  {
    var k := MAX_SCALE - d.scale;
    assert Pow10(k + 1) == 10 * Pow10(k);
    assert d.coefficient == 10 * (d.coefficient / 10);
    assert d.coefficient / 10 * (10 * Pow10(k)) == 10 * (d.coefficient / 10) * Pow10(k);
  }

  method ComputeCanonical(d: FixedDecimal) returns (c: FixedDecimal)
    ensures c == Canonical(d)
  {
    var coefficient: int, scale: nat := d.coefficient, d.scale;
    while scale > 0 && coefficient % 10 == 0
      invariant scale <= MAX_SCALE
      invariant Canonical(Decimal(coefficient, scale)) == Canonical(d)
      decreases scale
    {
      coefficient := coefficient / 10;
      scale := scale - 1;
    }
    c := Decimal(coefficient, scale);
  }

  /** Canonical decimals with the same numeric value are structurally equal. */
  lemma {:induction false} CanonicalIsUnique(x: FixedDecimal, y: FixedDecimal)
    requires IsCanonical(x) && IsCanonical(y)
    ensures x == y <==> Units(x) == Units(y)
  {
    hide Pow10, Units;
    if Units(x) == Units(y) {
      if x.scale < y.scale {
        SmallerScaleIsMultiple(x, y);
      } else if y.scale < x.scale {
        SmallerScaleIsMultiple(y, x);
      } else {
        EqualScale(x, y);
      }
    }
  }

  lemma EqualScale(x: FixedDecimal, y: FixedDecimal)
    requires x.scale == y.scale && Units(x) == Units(y)
    ensures x == y
  {
    MulOrder(x.coefficient, y.coefficient, Pow10(MAX_SCALE - x.scale));
  }

  lemma SmallerScaleIsMultiple(x: FixedDecimal, y: FixedDecimal)
    requires x.scale < y.scale && Units(x) == Units(y)
    ensures y.coefficient % 10 == 0
  {
    var p := Pow10(MAX_SCALE - y.scale);
    var m := Pow10(y.scale - x.scale - 1);
    assert x.coefficient * (10 * m) * p == Units(x) by {
      ScaleTwice(x.coefficient, y.scale - x.scale, MAX_SCALE - y.scale);
    }
    hide Pow10;
    MulOrder(x.coefficient * (10 * m), y.coefficient, p);
    TenTimes(x.coefficient, m);
  }

  lemma TenTimes(c: int, m: nat)
    ensures c * (10 * m) == 10 * (c * m) && (10 * (c * m)) % 10 == 0
  {
  }

  /** `canonical` is a normal form: two decimals share it exactly when neither is less. */
  lemma {:induction false} CanonicalDecidesEquality(x: FixedDecimal, y: FixedDecimal)
    ensures Canonical(x) == Canonical(y) <==> !Less(x, y) && !Less(y, x)
  {
    hide Less, Units, Canonical;
    LessIsNumeric(x, y);
    LessIsNumeric(y, x);
    CanonicalIsUnique(Canonical(x), Canonical(y));
  }

  // ----- arithmetic -----

  function Add(x: FixedDecimal, y: FixedDecimal): (r: FixedDecimal)
    ensures IsCanonical(r) && Units(r) == Units(x) + Units(y)
  {
    SumOfAligned(x, y);
    Canonical(Decimal(Aligned(x, y).0 + Aligned(x, y).1, Max(x.scale, y.scale)))
  }

  function Subtract(x: FixedDecimal, y: FixedDecimal): (r: FixedDecimal)
    ensures IsCanonical(r) && Units(r) == Units(x) - Units(y)
  {
    SumOfAligned(x, y);
    Canonical(Decimal(Aligned(x, y).0 - Aligned(x, y).1, Max(x.scale, y.scale)))
  }

  lemma SumOfAligned(x: FixedDecimal, y: FixedDecimal)
    ensures
      var scale: nat := Max(x.scale, y.scale);
      var (a, b) := Aligned(x, y);
      && Units(Decimal(a + b, scale)) == Units(x) + Units(y)
      && Units(Decimal(a - b, scale)) == Units(x) - Units(y)
  {
    hide Aligned, Pow10;
    AlignedUnits(x, y);
    var scale: nat := Max(x.scale, y.scale);
    var (a, b) := Aligned(x, y);
    var p := Pow10(MAX_SCALE - scale);
    assert (a + b) * p == a * p + b * p;
    assert (a - b) * p == a * p - b * p;
  }

  /** `rescale_exact`: quotient and remainder are taken on the magnitude, then the sign is put back. */
  function RescaleExact(d: FixedDecimal, target: int): (r: Result<FixedDecimal, DecimalError>) {
    if target < 0 || target > MAX_SCALE then Err(InvalidScale)
    else if target >= d.scale then Ok(Decimal(d.coefficient * Pow10(target - d.scale), target))
    else
      var divisor := Pow10(d.scale - target);
      if Abs(d.coefficient) % divisor != 0 then Err(LosesPrecision)
      else
        var quotient := Abs(d.coefficient) / divisor;
        Ok(Decimal(if d.coefficient < 0 then -quotient else quotient, target))
  }

  /** Rescaling succeeds exactly when the value exists at the target scale, and keeps the value. */
  lemma {:induction false} RescaleIsExact(d: FixedDecimal, target: int)
    ensures RescaleExact(d, target) == Err(InvalidScale) <==> !(0 <= target <= MAX_SCALE)
    ensures 0 <= target <= MAX_SCALE ==>
      && (RescaleExact(d, target).Ok? <==> exists c: int :: Units(Decimal(c, target)) == Units(d))
      && (RescaleExact(d, target).Ok? ==>
            RescaleExact(d, target).value.scale == target && Units(RescaleExact(d, target).value) == Units(d))
      && (RescaleExact(d, target).Err? ==> RescaleExact(d, target) == Err(LosesPrecision))
  {
    hide Units;
    if !(0 <= target <= MAX_SCALE) {
    } else if target >= d.scale {
      RescaleUp(d, target);
      assert Units(Decimal(d.coefficient * Pow10(target - d.scale), target)) == Units(d);
    } else {
      if RescaleExact(d, target).Ok? {
        RescaleDown(d, target);
        assert Units(Decimal(RescaleExact(d, target).value.coefficient, target)) == Units(d);
      }
      if c: int :| Units(Decimal(c, target)) == Units(d) {
        RescaleDownExists(d, target, c);
      }
    }
  }

  lemma RescaleUp(d: FixedDecimal, target: nat)
    requires d.scale <= target <= MAX_SCALE
    ensures Units(Decimal(d.coefficient * Pow10(target - d.scale), target)) == Units(d)
  {
    ScaleTwice(d.coefficient, target - d.scale, MAX_SCALE - target);
  }

  lemma RescaleDown(d: FixedDecimal, target: nat)
    requires target < d.scale && RescaleExact(d, target).Ok?
    ensures Units(RescaleExact(d, target).value) == Units(d)
  {
    hide Units, Pow10;
    var c := RescaleExact(d, target).value.coefficient;
    var divisor := Pow10(d.scale - target);
    var quotient := Abs(d.coefficient) / divisor;
    assert Abs(d.coefficient) == divisor * quotient;
    assert c * divisor == d.coefficient by {
      assert (-quotient) * divisor == -(divisor * quotient);
    }
    RescaleUp(Decimal(c, target), d.scale);
  }

  lemma RescaleDownExists(d: FixedDecimal, target: nat, c: int)
    requires target < d.scale && Units(Decimal(c, target)) == Units(d)
    ensures RescaleExact(d, target).Ok?
  {
    hide Units, Pow10;
    var divisor := Pow10(d.scale - target);
    RescaleUp(Decimal(c, target), d.scale);
    EqualScale(Decimal(c * divisor, d.scale), d);
    assert Abs(d.coefficient) == divisor * Abs(c) by {
      assert (-c) * divisor == -(c * divisor);
    }
    QuotientRemainder(Abs(d.coefficient), divisor, Abs(c), 0);
  }

  // ----- the string memo -----

  const STR_CACHE_CAP: nat := 1_000_000

  /** `__str__` with its module-level memo, cleared whenever it has reached the cap. */
  class StringCache {
    var cache: map<(int, nat), string>

    ghost predicate Valid()
      reads this
    {
      && |cache| <= STR_CACHE_CAP
      && forall key :: key in cache ==>
           key.1 <= MAX_SCALE && cache[key] == Format(Decimal(key.0, key.1))
    }

    constructor ()
      ensures Valid() && cache == map[]
    {
      cache := map[];
    }

    /** Whatever was asked before, the answer is the uncached one and the memo stays bounded. */
    method Str(d: FixedDecimal) returns (s: string)
      requires Valid()
      modifies this
      ensures Valid()
      ensures s == Format(d)
      ensures (d.coefficient, d.scale) in cache
    {
      hide Format;
      var key := (d.coefficient, d.scale);
      if key in cache {
        return cache[key];
      }
      s := Render(d);
      Remember(key, s);
    }

    /** The text of a decimal that is not in the memo. */
    static method Render(d: FixedDecimal) returns (s: string)
      ensures s == Format(d)
    {
      hide DigitsOf, PadLeft, Abs;
      var sign := if d.coefficient < 0 then "-" else "";
      var digits := DigitsOf(Abs(d.coefficient));
      if d.scale == 0 {
        return sign + digits;
      }
      digits := PadLeft(digits, d.scale + 1);
      return sign + digits[..|digits| - d.scale] + "." + digits[|digits| - d.scale..];
    }

    /** Clears a full memo before it takes one more entry. */
    method Remember(key: (int, nat), text: string)
      requires Valid() && key.1 <= MAX_SCALE && text == Format(Decimal(key.0, key.1))
      modifies this
      ensures Valid() && key in cache && |cache| <= |old(cache)| + 1
    {
      hide Format;
      if |cache| >= STR_CACHE_CAP {
        cache := map[];
      }
      cache := cache[key := text];
    }
  }
}
