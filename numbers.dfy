/**
 * Base-10 rendering and parsing of numbers: the parts of `fmt` and
 * `strconv` the comparison engine and the literal coercion use, and the
 * exact decimal numerals behind `decimal.Decimal` (and, without binary
 * rounding, behind `float32`/`float64`).
 */
module Numbers {
  import opened Wrappers
  import opened Text

  /** Go's fixed-width integer kinds. */
  const I32Min: int := -0x8000_0000
  const I32Max: int := 0x7fff_ffff
  const I64Min: int := -0x8000_0000_0000_0000
  const I64Max: int := 0x7fff_ffff_ffff_ffff
  const U32Max: int := 0xffff_ffff
  const U64Max: int := 0xffff_ffff_ffff_ffff

  type I32 = x: int | I32Min <= x <= I32Max
  type I64 = x: int | I64Min <= x <= I64Max
  type U32 = x: int | 0 <= x <= U32Max
  type U64 = x: int | 0 <= x <= U64Max

  /** The `bitSize` argument of `strconv.ParseInt`/`ParseUint` (0 means 64). */
  datatype Width = W32 | W64

  function SignedMin(w: Width): int { if w == W32 then I32Min else I64Min }
  function SignedMax(w: Width): int { if w == W32 then I32Max else I64Max }
  function UnsignedMax(w: Width): int { if w == W32 then U32Max else U64Max }

  function CompareInts(a: int, b: int): (o: Ordering)
    ensures o == Less <==> a < b
    ensures o == Equal <==> a == b
    ensures o == Greater <==> a > b
  {
    if a < b then Less else if a == b then Equal else Greater
  }

  predicate IsDigit(c: char) {
    '0' <= c <= '9'
  }

  predicate AllDigits(s: string) {
    forall i :: 0 <= i < |s| ==> IsDigit(s[i])
  }

  function DigitChar(d: nat): (c: char)
    requires d < 10
    ensures IsDigit(c)
  {
    (d + '0' as int) as char
  }

  /** The value of a string of decimal digits, most significant first. */
  function DigitsValue(s: string): nat
    requires AllDigits(s)
  {
    if s == [] then 0 else DigitsValue(s[..|s| - 1]) * 10 + (s[|s| - 1] as int - '0' as int)
  }

  /** `strconv.FormatUint(n, 10)`: digits without leading zeros, "0" for zero. */
  function RenderNat(n: nat): (s: string)
    ensures s != [] && AllDigits(s) && DigitsValue(s) == n
    ensures IsDigit(s[0])
  {
    if n < 10 then [DigitChar(n)]
    else
      var s := RenderNat(n / 10) + [DigitChar(n % 10)];
      assert s[..|s| - 1] == RenderNat(n / 10);
      s
  }

  /** `fmt.Sprint` of an integer of any kind: base 10 with a leading '-' when negative. */
  function RenderInt(x: int): string {
    if x < 0 then "-" + RenderNat(-x) else RenderNat(x)
  }

  /**
   * `strconv.ParseUint(s, 10, w)`: one or more decimal digits and nothing
   * else (no sign, no underscores in base 10), within the width's range.
   */
  function ParseUint(s: string, w: Width): (r: Option<int>)
    ensures r.Some? ==> 0 <= r.value <= UnsignedMax(w)
  {
    if s != [] && AllDigits(s) && DigitsValue(s) <= UnsignedMax(w) then Some(DigitsValue(s)) else None
  }

  /**
   * `strconv.ParseInt(s, 10, w)` (and `strconv.Atoi` with w = 64): an
   * optional '+' or '-', then one or more digits, within the signed range.
   */
  function ParseInt(s: string, w: Width): (r: Option<int>)
    ensures r.Some? ==> SignedMin(w) <= r.value <= SignedMax(w)
  {
    if s == [] then None
    else
      var body := if s[0] == '+' || s[0] == '-' then s[1..] else s;
      if body == [] || !AllDigits(body) then None
      else
        var magnitude: int := DigitsValue(body);
        var v := if s[0] == '-' then -magnitude else magnitude;
        if SignedMin(w) <= v <= SignedMax(w) then Some(v) else None
  }

  /** Rendering then parsing an integer gives it back exactly when it fits the width. */
  lemma ParseIntOfRenderInt(x: int, w: Width)
    ensures ParseInt(RenderInt(x), w) == if SignedMin(w) <= x <= SignedMax(w) then Some(x) else None
  {
    var s := RenderInt(x);
    if x < 0 {
      assert s[1..] == RenderNat(-x);
    }
  }

  /** Unsigned counterpart: a non-negative integer parses back iff it fits the width. */
  lemma ParseUintOfRenderNat(n: nat, w: Width)
    ensures ParseUint(RenderNat(n), w) == if n <= UnsignedMax(w) then Some(n) else None
  {
  }

  /** A negative number never parses as unsigned: the sign is refused. */
  lemma ParseUintRefusesSign(x: int, w: Width)
    requires x < 0
    ensures ParseUint(RenderInt(x), w) == None
  {
    assert !IsDigit(RenderInt(x)[0]);
  }

  /**
   * An exact decimal numeral coef·10^exp, the representation of
   * `decimal.Decimal` (an integer coefficient and a base-10 exponent).
   */
  datatype Num = Num(coef: int, exp: int)

  function Pow10(k: nat): (p: nat)
    ensures p >= 1
  {
    if k == 0 then 1 else 10 * Pow10(k - 1)
  }

  function Min(a: int, b: int): int { if a <= b then a else b }

  /** Exact three-way comparison of two numerals: both are scaled to the smaller exponent. */
  function CompareNums(a: Num, b: Num): Ordering {
    var e := Min(a.exp, b.exp);
    CompareInts(a.coef * Pow10(a.exp - e), b.coef * Pow10(b.exp - e))
  }

  /** The real number a numeral denotes: the reference for `CompareNums`. */
  ghost function RealPow10(e: int): (r: real)
    ensures r > 0.0
    decreases if e < 0 then -e else e
  {
    if e == 0 then 1.0 else if e > 0 then 10.0 * RealPow10(e - 1) else RealPow10(e + 1) / 10.0
  }

  ghost function NumValue(n: Num): real {
    n.coef as real * RealPow10(n.exp)
  }

  lemma {:induction false} RealPow10Add(a: int, k: nat)
    ensures RealPow10(a + k) == RealPow10(a) * (Pow10(k) as real)
    decreases k
  {
    if k > 0 {
      RealPow10Add(a, k - 1);
      RealPow10Step(a + k - 1);
      var r, p := RealPow10(a), Pow10(k - 1) as real;
      assert Pow10(k) as real == 10.0 * p;
      MulAssoc(10.0, r, p);
    }
  }

  lemma RealPow10Step(e: int)
    ensures RealPow10(e + 1) == 10.0 * RealPow10(e)
  {
  }

  /** `CompareNums` orders numerals exactly as the reals they denote. */
  lemma CompareNumsIsExact(a: Num, b: Num)
    ensures CompareNums(a, b) == Less <==> NumValue(a) < NumValue(b)
    ensures CompareNums(a, b) == Equal <==> NumValue(a) == NumValue(b)
    ensures CompareNums(a, b) == Greater <==> NumValue(a) > NumValue(b)
  {
    var x, y, s := CommonScale(a, b);
    CompareScaled(CompareNums(a, b), x, y, s, NumValue(a), NumValue(b));
  }

  /** Both numerals rescaled to their smaller exponent, whose power of ten is `s`. */
  lemma CommonScale(a: Num, b: Num) returns (x: int, y: int, s: real)
    ensures CompareNums(a, b) == CompareInts(x, y) && s > 0.0
    ensures NumValue(a) == x as real * s && NumValue(b) == y as real * s
  {
    var e := Min(a.exp, b.exp);
    x := ScaledNum(a, e);
    y := ScaledNum(b, e);
    s := RealPow10(e);
  }

  /** Rescales a numeral to a smaller exponent; returns the new coefficient. */
  lemma ScaledNum(n: Num, e: int) returns (c: int)
    requires e <= n.exp
    ensures c == n.coef * Pow10(n.exp - e)
    ensures NumValue(n) == c as real * RealPow10(e)
  {
    var k: nat := n.exp - e;
    assert e + k == n.exp;
    c := n.coef * Pow10(k);
    ScaledValue(n.coef, e, k);
    assert NumValue(n) == n.coef as real * RealPow10(e + k);
  }

  /** Moving a factor 10^k from the exponent into the coefficient keeps the value. */
  lemma ScaledValue(c: int, e: int, k: nat)
    ensures c as real * RealPow10(e + k) == ((c * Pow10(k)) as real) * RealPow10(e)
  {
    RealPow10Add(e, k);
    var p := Pow10(k);
    CastMul(c, p);
    MulAssoc(c as real, RealPow10(e), p as real);
  }

  lemma CastMul(c: int, p: int)
    ensures (c * p) as real == c as real * p as real
  {
  }

  lemma MulAssoc(x: real, y: real, z: real)
    ensures x * (y * z) == (x * z) * y
  {
  }

  lemma CompareScaled(o: Ordering, x: int, y: int, s: real, va: real, vb: real)
    requires o == CompareInts(x, y) && s > 0.0
    requires va == x as real * s && vb == y as real * s
    ensures o == Less <==> va < vb
    ensures o == Equal <==> va == vb
    ensures o == Greater <==> va > vb
  {
    ScalePreservesOrder(x as real, y as real, s);
    ScalePreservesOrder(y as real, x as real, s);
  }

  lemma ScalePreservesOrder(x: real, y: real, s: real)
    requires s > 0.0
    ensures x < y <==> x * s < y * s
    ensures x == y <==> x * s == y * s
  {
  }

  predicate IsSign(c: char) { c == '+' || c == '-' }

  /** Index of the first occurrence of `c` in `s`, if any. */
  function IndexOf(s: string, c: char): (r: Option<nat>)
    ensures r.Some? ==> r.value < |s| && s[r.value] == c
    ensures r.Some? ==> forall j :: 0 <= j < r.value ==> s[j] != c
    ensures r.None? ==> forall j :: 0 <= j < |s| ==> s[j] != c
  {
    if s == [] then None
    else if s[0] == c then Some(0)
    else match IndexOf(s[1..], c)
      case None => None
      case Some(k) => Some(k + 1)
  }

  /** Index of the first 'e' or 'E', which starts the exponent. */
  function ExponentIndex(s: string): Option<nat> {
    match (IndexOf(s, 'e'), IndexOf(s, 'E'))
    case (None, None) => None
    case (Some(i), None) => Some(i)
    case (None, Some(j)) => Some(j)
    case (Some(i), Some(j)) => Some(Min(i, j))
  }

  /** The digits before and after the first '.', or all of the text and nothing when it has none. */
  function SplitAtPoint(body: string): (string, string) {
    match IndexOf(body, '.')
    case None => (body, "")
    case Some(k) => (body[..k], body[k + 1..])
  }

  /** A mantissa: an optional sign, then digits with at most one '.', at least one digit in all. */
  function ParseMantissa(s: string): Option<Num> {
    var neg := s != [] && s[0] == '-';
    var body := if s != [] && IsSign(s[0]) then s[1..] else s;
    var parts := SplitAtPoint(body);
    DigitsNumeral(neg, parts.0 + parts.1, |parts.1|)
  }

  /** The numeral of a sign and a non-empty run of digits, the last `fracLen` of them after the point. */
  function DigitsNumeral(neg: bool, digits: string, fracLen: nat): Option<Num> {
    if digits == [] || !AllDigits(digits) then None
    else Some(Num(Signed(neg, DigitsValue(digits)), -(fracLen as int)))
  }

  /**
   * `decimal.NewFromString` and (without rounding to binary precision)
   * `strconv.ParseFloat`: a mantissa, optionally followed by 'e' or 'E' and
   * a base-10 integer exponent.
   */
  function ParseNumeral(s: string): Option<Num> {
    match ExponentIndex(s)
    case None => ParseMantissa(s)
    case Some(k) => WithExponent(ParseMantissa(s[..k]), ParseInt(s[k + 1..], W32))
  }

  /** A mantissa scaled by an exponent, when both parsed. */
  function WithExponent(m: Option<Num>, e: Option<int>): Option<Num> {
    if m.Some? && e.Some? then Some(Num(m.value.coef, m.value.exp + e.value)) else None
  }

  /** The zero value of `decimal.Decimal`. */
  const ZeroNum: Num := Num(0, 0)

  function Abs(x: int): nat { if x < 0 then -x else x }

  function Zeros(n: nat): (s: string)
    ensures |s| == n && AllDigits(s)
    ensures forall i :: 0 <= i < n ==> s[i] == '0'
  {
    if n == 0 then "" else "0" + Zeros(n - 1)
  }

  /** Drops the '0' characters at the end of `s`. */
  function TrimTrailingZeros(s: string): (r: string)
    ensures |r| <= |s| && r == s[..|r|]
    ensures r == [] || r[|r| - 1] != '0'
    ensures forall j :: |r| <= j < |s| ==> s[j] == '0'
  {
    if s == [] || s[|s| - 1] != '0' then s else TrimTrailingZeros(s[..|s| - 1])
  }

  /** The digits before the point when `k` of `digits` go after it: "0" when none are left. */
  function WholePart(digits: string, k: nat): string {
    if |digits| > k then digits[..|digits| - k] else "0"
  }

  /** The `k` digits after the point, padded with zeros on the left. */
  function RawFraction(digits: string, k: nat): string {
    if |digits| > k then digits[|digits| - k..] else Zeros(k - |digits|) + digits
  }

  /**
   * `Decimal.String()`: a non-negative exponent renders the scaled
   * integer; a negative one places the decimal point, pads with zeros on
   * the left and trims trailing zeros of the fraction.
   */
  function RenderNum(d: Num): string {
    if d.exp >= 0 then RenderInt(d.coef * Pow10(d.exp))
    else
      var digits := RenderNat(Abs(d.coef));
      Positional(d.coef < 0, WholePart(digits, -d.exp), TrimTrailingZeros(RawFraction(digits, -d.exp)))
  }

  /** An integer rendering parses back as a numeral of the same value. */
  lemma ParseNumeralOfRenderInt(x: int)
    ensures ParseNumeral(RenderInt(x)) == Some(Num(x, 0))
  {
    var s := RenderInt(x);
    assert IndexOf(s, 'e') == None && IndexOf(s, 'E') == None by {
      forall j | 0 <= j < |s| ensures s[j] != 'e' && s[j] != 'E' {
        if x < 0 && j > 0 { assert s[j] == RenderNat(-x)[j - 1]; }
      }
    }
    var body := if IsSign(s[0]) then s[1..] else s;
    assert body == RenderNat(Abs(x));
    assert IndexOf(body, '.') == None;
    assert body + "" == body;
  }

  // ------------------------------------------------------------- digit strings

  /** Digits appended on the right: the left part's value moves up by their count. */
  lemma {:induction false} DigitsValueAppend(a: string, b: string)
    requires AllDigits(a) && AllDigits(b)
    ensures AllDigits(a + b)
    ensures DigitsValue(a + b) == DigitsValue(a) * Pow10(|b|) + DigitsValue(b)
    decreases |b|
  {
    var ab := a + b;
    assert AllDigits(ab) by {
      forall i | 0 <= i < |ab| ensures IsDigit(ab[i]) {
        if i >= |a| { assert ab[i] == b[i - |a|]; }
      }
    }
    if b == [] {
      assert ab == a;
    } else {
      var init := b[..|b| - 1];
      assert ab[..|ab| - 1] == a + init;
      DigitsValueAppend(a, init);
      var d := b[|b| - 1] as int - '0' as int;
      ShiftDigit(DigitsValue(a), Pow10(|init|), DigitsValue(init), d);
    }
  }

  lemma ShiftDigit(x: int, p: int, y: int, d: int)
    ensures (x * p + y) * 10 + d == x * (10 * p) + (y * 10 + d)
  {
  }

  /** A run of zeros is worth nothing. */
  lemma {:induction false} ZerosValue(n: nat)
    ensures DigitsValue(Zeros(n)) == 0
  {
    if n > 0 {
      assert Zeros(n)[..n - 1] == Zeros(n - 1);
      ZerosValue(n - 1);
    }
  }

  /** Leading zeros do not change a digit string's value. */
  lemma LeadingZeros(n: nat, s: string)
    requires AllDigits(s)
    ensures AllDigits(Zeros(n) + s) && DigitsValue(Zeros(n) + s) == DigitsValue(s)
  {
    DigitsValueAppend(Zeros(n), s);
    ZerosValue(n);
  }

  /** A string is its trimmed part followed by the zeros trimmed off. */
  lemma TrimSplit(s: string)
    ensures s == TrimTrailingZeros(s) + Zeros(|s| - |TrimTrailingZeros(s)|)
  {
    var r := TrimTrailingZeros(s);
    var z := Zeros(|s| - |r|);
    forall j | 0 <= j < |s| ensures s[j] == (r + z)[j] {
      if j >= |r| { assert z[j - |r|] == '0'; }
    }
  }

  // ------------------------------------------------- positional numerals

  /** A numeral in positional notation: an optional '-', whole digits, then '.' and the fraction digits if there are any. */
  function Positional(neg: bool, whole: string, frac: string): string {
    (if neg then "-" else "") + (if frac == [] then whole else whole + "." + frac)
  }

  /** No 'e' or 'E' in the text: it has no exponent part. */
  lemma NoExponent(s: string)
    requires forall j :: 0 <= j < |s| ==> s[j] != 'e' && s[j] != 'E'
    ensures ExponentIndex(s) == None
  {
  }

  /** `IndexOf` finds the first occurrence. */
  lemma IndexOfFirst(s: string, c: char, p: int)
    requires 0 <= p < |s| && s[p] == c
    requires forall j :: 0 <= j < p ==> s[j] != c
    ensures IndexOf(s, c) == Some(p)
  {
  }

  /** A magnitude with a sign. */
  function Signed(neg: bool, m: nat): int {
    if neg then -(m as int) else m
  }

  /** The characters of a positional numeral: digits, at most one point, a leading sign. */
  lemma PositionalHasNoExponent(neg: bool, whole: string, frac: string)
    requires AllDigits(whole) && AllDigits(frac)
    ensures ExponentIndex(Positional(neg, whole, frac)) == None
  {
    var s := Positional(neg, whole, frac);
    var body := if frac == [] then whole else whole + "." + frac;
    assert s == (if neg then "-" else "") + body;
    forall j | 0 <= j < |body| ensures IsDigit(body[j]) || body[j] == '.' {
      if j > |whole| { assert body[j] == frac[j - |whole| - 1]; }
    }
    forall j | 0 <= j < |s| ensures s[j] != 'e' && s[j] != 'E' {
      if neg && j > 0 { assert s[j] == body[j - 1]; }
    }
    NoExponent(s);
  }

  /** The point of a positional numeral splits it back into its whole and fraction digits. */
  lemma PointSplits(whole: string, frac: string)
    requires AllDigits(whole) && AllDigits(frac)
    ensures SplitAtPoint(if frac == [] then whole else whole + "." + frac) == (whole, frac)
  {
    var body := if frac == [] then whole else whole + "." + frac;
    if frac == [] {
      assert IndexOf(body, '.') == None;
    } else {
      IndexOfFirst(body, '.', |whole|);
      assert body[..|whole|] == whole;
      assert body[|whole| + 1..] == frac;
    }
  }

  /** The sign of a mantissa is read off its first character. */
  lemma StripSign(s: string, neg: bool, body: string)
    requires s == (if neg then "-" else "") + body && body != [] && IsDigit(body[0])
    ensures s != [] && (s[0] == '-' <==> neg)
    ensures (if IsSign(s[0]) then s[1..] else s) == body
  {
    if neg {
      assert s[0] == '-' && s[1..] == body;
    } else {
      assert s == body && !IsSign(s[0]);
    }
  }

  /** `ParseMantissa` on a sign and a body whose point splits it into digit strings. */
  lemma MantissaOfBody(s: string, neg: bool, body: string, whole: string, frac: string)
    requires s != [] && (s[0] == '-' <==> neg) && (if IsSign(s[0]) then s[1..] else s) == body
    requires SplitAtPoint(body) == (whole, frac)
    requires whole + frac != [] && AllDigits(whole + frac)
    ensures ParseMantissa(s) == Some(Num(Signed(neg, DigitsValue(whole + frac)), -|frac|))
  {
    assert ParseMantissa(s) == DigitsNumeral(neg, whole + frac, |frac|);
  }

  /** A positional numeral reads as its digits scaled down by its fraction's length. */
  lemma ParsePositional(neg: bool, whole: string, frac: string)
    requires whole != [] && AllDigits(whole) && AllDigits(frac)
    ensures AllDigits(whole + frac)
    ensures ParseNumeral(Positional(neg, whole, frac)) == Some(Num(Signed(neg, DigitsValue(whole + frac)), -|frac|))
    ensures ParseMantissa(Positional(neg, whole, frac)) == ParseNumeral(Positional(neg, whole, frac))
  {
    DigitsValueAppend(whole, frac);
    PositionalHasNoExponent(neg, whole, frac);
    PointSplits(whole, frac);
    var body := if frac == [] then whole else whole + "." + frac;
    assert body[0] == whole[0];
    StripSign(Positional(neg, whole, frac), neg, body);
    MantissaOfBody(Positional(neg, whole, frac), neg, body, whole, frac);
  }

  // ------------------------------------------------ rendering round trips

  /** Placing the point `k` digits from the right keeps the digits' value. */
  lemma PlacePoint(n: nat, k: nat)
    ensures var digits := RenderNat(n);
      var whole, raw := WholePart(digits, k), RawFraction(digits, k);
      whole != [] && AllDigits(whole) && AllDigits(raw) && |raw| == k &&
      AllDigits(whole + raw) && DigitsValue(whole + raw) == n
  {
    var digits := RenderNat(n);
    if |digits| > k {
      SplitDigits(digits, k);
    } else {
      PadDigits(digits, k);
    }
  }

  lemma SplitDigits(digits: string, k: nat)
    requires AllDigits(digits) && |digits| > k
    ensures var whole, raw := WholePart(digits, k), RawFraction(digits, k);
      whole != [] && AllDigits(whole) && AllDigits(raw) && |raw| == k &&
      whole + raw == digits
  {
  }

  lemma PadDigits(digits: string, k: nat)
    requires AllDigits(digits) && |digits| <= k
    ensures var whole, raw := WholePart(digits, k), RawFraction(digits, k);
      whole != [] && AllDigits(whole) && AllDigits(raw) && |raw| == k &&
      AllDigits(whole + raw) && DigitsValue(whole + raw) == DigitsValue(digits)
  {
    var z := k - |digits|;
    var raw := Zeros(z) + digits;
    assert AllDigits(raw) by {
      DigitsValueAppend(Zeros(z), digits);
    }
    assert Zeros(z + 1) == "0" + Zeros(z);
    assert "0" + raw == Zeros(z + 1) + digits;
    LeadingZeros(z + 1, digits);
  }

  /** Trimming zeros off the fraction divides the digits' value by a power of ten. */
  lemma TrimFraction(whole: string, raw: string)
    requires AllDigits(whole) && AllDigits(raw)
    ensures var frac := TrimTrailingZeros(raw);
      AllDigits(frac) && AllDigits(whole + frac) && AllDigits(whole + raw) &&
      DigitsValue(whole + raw) == DigitsValue(whole + frac) * Pow10(|raw| - |frac|)
  {
    var frac := TrimTrailingZeros(raw);
    var t := |raw| - |frac|;
    TrimSplit(raw);
    DigitsValueAppend(whole, frac);
    assert whole + raw == (whole + frac) + Zeros(t);
    DigitsValueAppend(whole + frac, Zeros(t));
    ZerosValue(t);
  }

  /** `Decimal.String()` for a negative exponent is a positional numeral of the same magnitude. */
  lemma RenderNumNegativeExponent(d: Num) returns (whole: string, frac: string, t: nat)
    requires d.exp < 0
    ensures whole != [] && AllDigits(whole) && AllDigits(frac) && AllDigits(whole + frac)
    ensures -d.exp == |frac| + t
    ensures Abs(d.coef) == DigitsValue(whole + frac) * Pow10(t)
    ensures RenderNum(d) == Positional(d.coef < 0, whole, frac)
  {
    var digits := RenderNat(Abs(d.coef));
    var raw := RawFraction(digits, -d.exp);
    whole := WholePart(digits, -d.exp);
    frac := TrimTrailingZeros(raw);
    t := |raw| - |frac|;
    PlacePoint(Abs(d.coef), -d.exp);
    TrimFraction(whole, raw);
  }

  /** Negating the coefficient negates the value. */
  lemma NegatedValue(c: int, e: int)
    ensures NumValue(Num(-c, e)) == -NumValue(Num(c, e))
  {
  }

  /** `Decimal.String()` parses back to a numeral of the same value. */
  lemma RenderNumParsesBack(d: Num)
    ensures ParseNumeral(RenderNum(d)).Some?
    ensures NumValue(ParseNumeral(RenderNum(d)).value) == NumValue(d)
  {
    if d.exp >= 0 {
      RenderIntegralParsesBack(d);
    } else {
      RenderFractionParsesBack(d);
    }
  }

  lemma RenderIntegralParsesBack(d: Num)
    requires d.exp >= 0
    ensures ParseNumeral(RenderNum(d)).Some?
    ensures NumValue(ParseNumeral(RenderNum(d)).value) == NumValue(d)
  {
    var k: nat := d.exp;
    var c := d.coef * Pow10(k);
    ParseNumeralOfRenderInt(c);
    IntegralValue(d.coef, k);
  }

  /** Scaling the coefficient by 10^k and dropping the exponent keeps the value. */
  lemma IntegralValue(c: int, k: nat)
    ensures NumValue(Num(c * Pow10(k), 0)) == NumValue(Num(c, k))
  {
    ScaledValue(c, 0, k);
    var r0 := RealPow10(0);
    assert r0 == 1.0;
    assert NumValue(Num(c * Pow10(k), 0)) == (c * Pow10(k)) as real * r0;
    assert NumValue(Num(c, k)) == c as real * RealPow10(0 + k);
  }

  lemma RenderFractionParsesBack(d: Num)
    requires d.exp < 0
    ensures ParseNumeral(RenderNum(d)).Some?
    ensures NumValue(ParseNumeral(RenderNum(d)).value) == NumValue(d)
  {
    var whole, frac, t := RenderNumNegativeExponent(d);
    ParsePositional(d.coef < 0, whole, frac);
    SignedScaledValue(d.coef, d.exp, DigitsValue(whole + frac), |frac|, t);
  }

  /** A magnitude `m`·10^t with the coefficient's sign, written with exponent -f, keeps the value. */
  lemma SignedScaledValue(c: int, e: int, m: nat, f: int, t: nat)
    requires Abs(c) == m * Pow10(t) && e + t == -f
    ensures NumValue(Num(Signed(c < 0, m), -f)) == NumValue(Num(c, e))
  {
    MagnitudeValue(m, e, t);
    if c < 0 {
      NegatedValue(m, -f);
      NegatedValue(Abs(c), e);
    }
  }

  /** Moving 10^t from the coefficient into the exponent keeps the value. */
  lemma MagnitudeValue(m: int, e: int, t: nat)
    ensures NumValue(Num(m, e + t)) == NumValue(Num(m * Pow10(t), e))
  {
    ScaledValue(m, e, t);
  }

  // ------------------------------------------------- floats under `%v`

  /** Factors of ten moved from a non-zero coefficient into the exponent: the shortest digits. */
  function Normalized(n: Num): (m: Num)
    requires n.coef != 0
    ensures m.coef != 0 && m.coef % 10 != 0 && (m.coef < 0 <==> n.coef < 0)
    decreases Abs(n.coef)
  {
    if n.coef % 10 == 0 then Normalized(Num(n.coef / 10, n.exp + 1)) else n
  }

  /** Normalizing keeps the value. */
  lemma {:induction false} NormalizedValue(n: Num)
    requires n.coef != 0
    ensures NumValue(Normalized(n)) == NumValue(n)
    decreases Abs(n.coef)
  {
    if n.coef % 10 == 0 {
      var q := n.coef / 10;
      NormalizedValue(Num(q, n.exp + 1));
      MagnitudeValue(q, n.exp, 1);
      assert q * Pow10(1) == n.coef;
    }
  }

  /** The decimal exponent of the leading digit: a non-zero value is d.ddd·10^x for this x. */
  function SciExponent(n: Num): int
    requires n.coef != 0
  {
    LeadExponent(Normalized(n))
  }

  /** The exponent of the leading digit of coef·10^exp, as written with the coefficient's digits. */
  function LeadExponent(m: Num): int
    requires m.coef != 0
  {
    |RenderNat(Abs(m.coef))| + m.exp - 1
  }

  /** Text with no 'e' or 'E' in it. */
  predicate NoExponentMark(s: string) {
    forall j :: 0 <= j < |s| ==> s[j] != 'e' && s[j] != 'E'
  }

  /** The exponent of `%e`: its sign, then at least two digits. */
  function ExponentText(x: int): string {
    (if x < 0 then "-" else "+") + (if Abs(x) < 10 then "0" else "") + RenderNat(Abs(x))
  }

  /** `%e` with the shortest digits: the leading digit, the others after a point, then the exponent. */
  function Scientific(n: Num): string
    requires n.coef != 0
  {
    SciText(Normalized(n))
  }

  /** The exponent form of coef·10^exp with the coefficient's own digits. */
  function SciText(m: Num): string
    requires m.coef != 0
  {
    var digits := RenderNat(Abs(m.coef));
    Positional(m.coef < 0, digits[..1], digits[1..]) + "e" + ExponentText(LeadExponent(m))
  }

  /** `%v` chooses the exponent form when the leading digit's exponent is below -4 or at least 6. */
  predicate ExponentForm(n: Num) {
    n.coef != 0 && (SciExponent(n) < -4 || SciExponent(n) >= 6)
  }

  /**
   * `fmt.Sprint` of a `float32` or `float64`, that is `%g` with the
   * shortest digits: the exponent form when `ExponentForm` holds, the
   * positional form with trailing zeros trimmed otherwise.
   */
  function RenderFloat(n: Num): string {
    if ExponentForm(n) then Scientific(n) else RenderNum(n)
  }

  /** A float's leading-digit exponent is one that `strconv` reads back at 32 bits: true of every `float64`. */
  predicate ExponentFits(n: Num) {
    n.coef == 0 || I32Min <= SciExponent(n) <= I32Max
  }

  /** An exponent text reads back as its exponent when that fits 32 bits. */
  lemma ExponentTextParses(x: int)
    ensures NoExponentMark(ExponentText(x))
    ensures ParseInt(ExponentText(x), W32) == if I32Min <= x <= I32Max then Some(x) else None
  {
    var e := ExponentText(x);
    var pad := if Abs(x) < 10 then "0" else "";
    var digits := RenderNat(Abs(x));
    assert pad == Zeros(|pad|);
    LeadingZeros(|pad|, digits);
    assert e[1..] == pad + digits;
    forall j | 0 <= j < |e| ensures e[j] != 'e' && e[j] != 'E' {
      if j > 0 { assert IsDigit(e[1..][j - 1]); }
    }
  }

  /** A mantissa without an exponent, then 'e' and a text without one, splits at that 'e'. */
  lemma ExponentSplit(p: string, e: string, c: int, ex: int, x: int, r: Num)
    requires ExponentIndex(p) == None && NoExponentMark(e)
    requires ParseMantissa(p) == Some(Num(c, ex)) && ParseInt(e, W32) == Some(x)
    requires r.coef == c && r.exp == ex + x
    ensures ParseNumeral(p + "e" + e) == Some(r)
  {
    var s := p + "e" + e;
    SingleExponentMark(p, e);
    assert s[..|p|] == p;
    assert s[|p| + 1..] == e;
    NumFields(r);
    NumeralAt(s, |p|, c, ex, x, r);
  }

  /** A numeral whose first exponent mark is at `k`: the mantissa before it, scaled by the exponent after it. */
  lemma NumeralAt(s: string, k: nat, c: int, ex: int, x: int, r: Num)
    requires ExponentIndex(s) == Some(k) && k < |s|
    requires ParseMantissa(s[..k]) == Some(Num(c, ex)) && ParseInt(s[k + 1..], W32) == Some(x)
    requires r == Num(c, ex + x)
    ensures ParseNumeral(s) == Some(r)
  {
  }

  /** The 'e' joining such a mantissa and exponent is the only exponent mark. */
  lemma SingleExponentMark(p: string, e: string)
    requires ExponentIndex(p) == None && NoExponentMark(e)
    ensures ExponentIndex(p + "e" + e) == Some(|p|)
  {
    var s := p + "e" + e;
    NoExponentChars(p);
    forall j | 0 <= j < |s| ensures s[j] != 'E' {
      if j > |p| { assert s[j] == e[j - |p| - 1]; }
    }
    IndexOfFirst(s, 'e', |p|);
  }

  /** The exponent form is its mantissa, which has no exponent, then 'e' and the exponent text. */
  lemma SciTextParts(m: Num) returns (p: string)
    requires m.coef != 0
    ensures SciText(m) == p + "e" + ExponentText(LeadExponent(m))
    ensures p != [] && ExponentIndex(p) == None
    ensures ParseMantissa(p) == Some(Num(m.coef, 1 - |RenderNat(Abs(m.coef))|))
  {
    var digits := RenderNat(Abs(m.coef));
    p := Positional(m.coef < 0, digits[..1], digits[1..]);
    SplitLeadingDigit(m.coef < 0, digits);
    SignedAbs(m.coef);
  }

  /** The sign and magnitude of an integer give it back. */
  lemma SignedAbs(c: int)
    ensures Signed(c < 0, Abs(c)) == c
  {
  }

  /** The mantissa of the exponent form: the leading digit, then the others after a point. */
  lemma SplitLeadingDigit(neg: bool, digits: string)
    requires digits != [] && AllDigits(digits)
    ensures var p := Positional(neg, digits[..1], digits[1..]);
      ExponentIndex(p) == None && ParseMantissa(p) == Some(Num(Signed(neg, DigitsValue(digits)), 1 - |digits|))
  {
    var w, f := digits[..1], digits[1..];
    assert w + f == digits;
    assert AllDigits(w) && AllDigits(f) by {
      forall i | 0 <= i < |f| ensures IsDigit(f[i]) {
        assert f[i] == digits[i + 1];
      }
    }
    PositionalHasNoExponent(neg, w, f);
    ParsePositional(neg, w, f);
    var r := Num(Signed(neg, DigitsValue(w + f)), -|f|);
    assert ParseMantissa(Positional(neg, w, f)) == Some(r);
    assert r == Num(Signed(neg, DigitsValue(digits)), 1 - |digits|);
  }

  /** The exponent form reads back as exactly the normalized numeral. */
  lemma ScientificParsesBack(n: Num)
    requires n.coef != 0 && I32Min <= SciExponent(n) <= I32Max
    ensures ParseNumeral(Scientific(n)) == Some(Normalized(n))
  {
    SciTextParsesBack(Normalized(n));
  }

  lemma SciTextParsesBack(m: Num)
    requires m.coef != 0 && I32Min <= LeadExponent(m) <= I32Max
    ensures ParseNumeral(SciText(m)) == Some(m)
  {
    var p := SciTextParts(m);
    var k, x := |RenderNat(Abs(m.coef))|, LeadExponent(m);
    assert 1 - k + x == m.exp;
    ExponentTextParses(x);
    ExponentSplit(p, ExponentText(x), m.coef, 1 - k, x, m);
  }

  lemma NumFields(r: Num)
    ensures r == Num(r.coef, r.exp)
  {
  }

  /** Text without an exponent has no 'e' or 'E' in it. */
  lemma NoExponentChars(s: string)
    requires ExponentIndex(s) == None
    ensures forall j :: 0 <= j < |s| ==> s[j] != 'e' && s[j] != 'E'
  {
  }

  /** The exponent form is no integer numeral: it holds an 'e' after its first character. */
  lemma ScientificIsNoInteger(n: Num, w: Width)
    requires n.coef != 0
    ensures ParseInt(Scientific(n), w) == None && ParseUint(Scientific(n), w) == None
  {
    var m := Normalized(n);
    var p := SciTextParts(m);
    var t := ExponentText(LeadExponent(m));
    MarkIsNoInteger(p + "e" + t, |p|, w);
  }

  /** Text with an 'e' anywhere after its first character is no integer. */
  lemma MarkIsNoInteger(s: string, k: int, w: Width)
    requires 1 <= k < |s| && s[k] == 'e'
    ensures ParseInt(s, w) == None && ParseUint(s, w) == None
  {
    assert !AllDigits(s);
    if IsSign(s[0]) {
      assert s[1..][k - 1] == 'e';
    }
  }

  /** `fmt.Sprint` of a float parses back to a numeral of the same value. */
  lemma RenderFloatParsesBack(n: Num)
    requires ExponentFits(n)
    ensures ParseNumeral(RenderFloat(n)).Some?
    ensures NumValue(ParseNumeral(RenderFloat(n)).value) == NumValue(n)
  {
    if ExponentForm(n) {
      ScientificParsesBack(n);
      NormalizedValue(n);
    } else {
      RenderNumParsesBack(n);
    }
  }

  /** A float of value one million is rendered "1e+06", not as an integer numeral. */
  lemma MillionRendersInExponentForm()
    ensures ExponentForm(Num(10000000, -1))
    ensures RenderFloat(Num(10000000, -1)) == "1e+06"
  {
    assert Normalized(Num(10, 5)) == Normalized(Num(1, 6)) == Num(1, 6);
    assert Normalized(Num(1000, 3)) == Normalized(Num(100, 4)) == Normalized(Num(10, 5));
    assert Normalized(Num(10000000, -1)) == Normalized(Num(1000000, 0)) == Normalized(Num(100000, 1)) == Normalized(Num(10000, 2)) == Normalized(Num(1000, 3));
    assert RenderNat(1) == "1";
    assert SciExponent(Num(10000000, -1)) == 6;
    assert ExponentText(6) == "+06";
    assert Positional(false, "1", "") == "1";
  }
}
