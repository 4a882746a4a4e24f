/**
 * JavaScript numbers as the library meets them: through `parseFloat(v)`,
 * `parseInt(v, 10)` and the string conversion `'' + v`.
 *
 * A finite number is an exact decimal `mantissa * 10^exponent` kept in a normal
 * form (no trailing zero in the mantissa, and zero has exponent 0), so that two
 * numbers are equal exactly when their values are; JavaScript's `-0` is the same
 * as `0` here, which is all that `x === 0`, `String(x)` and `includes` can observe.
 * Rounding to IEEE-754 binary64 is not modelled.
 */
module JsNumbers {

  // ---------------------------------------------------------------------------
  // Decimal digit strings

  predicate IsDigit(c: char) { '0' <= c <= '9' }

  predicate AllDigits(s: string) { forall i | 0 <= i < |s| :: IsDigit(s[i]) }

  function Pow10(k: nat): (r: nat)
    ensures r >= 1
  {
    if k == 0 then 1 else 10 * Pow10(k - 1)
  }

  /** The value of a decimal digit; the parsers only ever pass digits, other characters count as 0. */
  function DigitOf(c: char): nat
  {
    if IsDigit(c) then c as int - '0' as int else 0
  }

  function DigitChar(d: nat): (c: char)
    requires d < 10
    ensures IsDigit(c) && DigitOf(c) == d
  {
    ('0' as int + d) as char
  }

  /** The value of a string of decimal digits, most significant digit first. */
  function DigitsValue(s: string): nat
  {
    if s == [] then 0 else DigitsValue(s[..|s| - 1]) * 10 + DigitOf(s[|s| - 1])
  }

  /** The shortest decimal numeral of `n`. */
  function Numeral(n: nat): (s: string)
    ensures AllDigits(s) && |s| >= 1
  {
    if n < 10 then [DigitChar(n)] else Numeral(n / 10) + [DigitChar(n % 10)]
  }

  function Zeros(k: nat): (s: string)
    ensures |s| == k && AllDigits(s)
    ensures forall i | 0 <= i < k :: s[i] == '0'
  {
    if k == 0 then "" else Zeros(k - 1) + "0"
  }

  /** The longest prefix of `s` made of decimal digits. */
  function DigitPrefix(s: string): (p: string)
    ensures AllDigits(p) && p <= s
    ensures |p| < |s| ==> !IsDigit(s[|p|])
  {
    if s != [] && IsDigit(s[0]) then [s[0]] + DigitPrefix(s[1..]) else ""
  }

  lemma ConcatDigits(a: string, b: string)
    requires AllDigits(a) && AllDigits(b)
    ensures AllDigits(a + b)
  {
    forall i | 0 <= i < |a + b| ensures IsDigit((a + b)[i]) {
      if i < |a| { assert (a + b)[i] == a[i]; } else { assert (a + b)[i] == b[i - |a|]; }
    }
  }

  lemma MulTen(x: int, p: int)
    ensures x * (10 * p) == (x * p) * 10
  {
  }

  lemma {:induction false} DigitsValueAppend(a: string, b: string)
    ensures DigitsValue(a + b) == DigitsValue(a) * Pow10(|b|) + DigitsValue(b)
    decreases |b|
  {
    if b == [] {
      assert a + b == a;
    } else {
      var b' := b[..|b| - 1];
      assert (a + b)[..|a + b| - 1] == a + b';
      assert (a + b)[|a + b| - 1] == b[|b| - 1];
      DigitsValueAppend(a, b');
      var x, y, p, d := DigitsValue(a), DigitsValue(b'), Pow10(|b'|), DigitOf(b[|b| - 1]);
      assert DigitsValue(a + b) == (x * p + y) * 10 + d;
      assert DigitsValue(b) == y * 10 + d;
      assert Pow10(|b|) == 10 * p;
      MulTen(x, p);
    }
  }

  lemma {:induction false} DigitsValueBound(s: string)
    ensures DigitsValue(s) < Pow10(|s|)
    decreases |s|
  {
    if s != [] {
      DigitsValueBound(s[..|s| - 1]);
    }
  }

  lemma {:induction false} ZerosValue(k: nat)
    ensures DigitsValue(Zeros(k)) == 0
  {
    if k > 0 {
      assert Zeros(k)[..k - 1] == Zeros(k - 1);
      ZerosValue(k - 1);
    }
  }

  /** Appending zeros multiplies by a power of ten. */
  lemma ScaledValue(s: string, k: nat)
    ensures DigitsValue(s + Zeros(k)) == DigitsValue(s) * Pow10(k)
  {
    DigitsValueAppend(s, Zeros(k));
    ZerosValue(k);
  }

  /** `Numeral` is the inverse of `DigitsValue`. */
  lemma {:induction false} NumeralValue(n: nat)
    ensures DigitsValue(Numeral(n)) == n
  {
    if n >= 10 {
      var s := Numeral(n);
      assert s[..|s| - 1] == Numeral(n / 10);
      NumeralValue(n / 10);
    }
  }

  lemma NumeralBound(n: nat)
    ensures n < Pow10(|Numeral(n)|)
  {
    NumeralValue(n);
    DigitsValueBound(Numeral(n));
  }

  /** Digits followed by something that is not a digit: the digit prefix is exactly those digits. */
  lemma {:induction false} DigitPrefixOf(a: string, b: string)
    requires AllDigits(a)
    requires b == [] || !IsDigit(b[0])
    ensures DigitPrefix(a + b) == a
    decreases |a|
  {
    if a == [] {
      assert a + b == b;
    } else {
      assert (a + b)[1..] == a[1..] + b;
      DigitPrefixOf(a[1..], b);
    }
  }

  // ---------------------------------------------------------------------------
  // Numbers

  /** `mantissa * 10^exponent` */
  datatype Decimal = Decimal(mantissa: int, exponent: int)

  predicate IsNormal(d: Decimal)
  {
    if d.mantissa == 0 then d.exponent == 0 else d.mantissa % 10 != 0
  }

  type NormalDecimal = d: Decimal | IsNormal(d) witness Decimal(0, 0)

  datatype Number = NaN | Infinity(negative: bool) | Finite(value: NormalDecimal)

  const Zero: Number := Finite(Decimal(0, 0))

  function Abs(m: int): nat { if m < 0 then -m else m }

  /** The normal form of `m * 10^e`. */
  function Normalize(m: int, e: int): (d: NormalDecimal)
    ensures d.mantissa == 0 <==> m == 0
    ensures d.mantissa > 0 <==> m > 0
    ensures m != 0 ==> d.exponent >= e
    decreases Abs(m)
  {
    if m == 0 then Decimal(0, 0)
    else if m % 10 != 0 then Decimal(m, e)
    else Normalize(m / 10, e + 1)
  }

  /** Trailing zeros moved into the exponent give back the same number. */
  lemma {:induction false} NormalizeScaled(m: int, e: int, j: nat)
    requires m % 10 != 0
    ensures Normalize(m * Pow10(j), e - j) == Decimal(m, e)
    decreases j
  {
    if j > 0 {
      var p := Pow10(j - 1);
      var q := m * p;
      MulTen(m, p);
      assert m * Pow10(j) == q * 10;
      assert q != 0 by { NonZeroProduct(m, p); }
      assert (q * 10) % 10 == 0 && (q * 10) / 10 == q;
      NormalizeScaled(m, e, j - 1);
    }
  }

  lemma NonZeroProduct(m: int, p: nat)
    requires m != 0 && p >= 1
    ensures m * p != 0
  {
    if m > 0 { assert m * p >= p; } else { assert m * p <= 0 - p; }
  }

  /** Normalising commutes with changing the sign. */
  lemma {:induction false} NormalizeNegate(m: int, e: int)
    ensures Normalize(-m, e) == Decimal(-Normalize(m, e).mantissa, Normalize(m, e).exponent)
    decreases Abs(m)
  {
    if m != 0 {
      assert (-m) % 10 == 0 <==> m % 10 == 0;
      if m % 10 == 0 {
        assert (-m) / 10 == -(m / 10);
        NormalizeNegate(m / 10, e + 1);
      }
    }
  }

  function Negate(x: Number): (r: Number)
  {
    match x
    case NaN => NaN
    case Infinity(negative) => Infinity(!negative)
    case Finite(d) =>
      assert IsNormal(Decimal(-d.mantissa, d.exponent)) by {
        assert (-d.mantissa) % 10 == 0 <==> d.mantissa % 10 == 0;
      }
      Finite(Decimal(-d.mantissa, d.exponent))
  }

  /** The number of digits before the decimal point in scientific terms: `10^(n-1) <= |x| < 10^n`. */
  function Order(d: Decimal): int
  {
    |Numeral(Abs(d.mantissa))| + d.exponent
  }

  /** The integer part of a finite number (rounding toward zero). */
  function Trunc(d: NormalDecimal): NormalDecimal
  {
    if d.exponent >= 0 then d
    else if d.mantissa >= 0 then Normalize(d.mantissa / Pow10(-d.exponent), 0)
    else Normalize(-((-d.mantissa) / Pow10(-d.exponent)), 0)
  }

  // ---------------------------------------------------------------------------
  // Number::toString (section 6.1.6.1.20 of ECMA-262, 2024 edition), radix 10

  function NumberToString(x: Number): (r: string)
    ensures r != []
    ensures x.Finite? && x.value.mantissa > 0 ==> IsDigit(r[0])
    ensures x.Finite? && x.value.mantissa < 0 ==> |r| >= 2 && r[0] == '-' && IsDigit(r[1])
    ensures IsDigit(r[0]) ==> x.Finite? && x.value.mantissa >= 0
  {
    match x
    case NaN => "NaN"
    case Infinity(negative) => if negative then "-Infinity" else "Infinity"
    case Finite(d) =>
      if d.mantissa == 0 then "0"
      else if d.mantissa < 0 then "-" + MagnitudeText(-d.mantissa, d.exponent)
      else MagnitudeText(d.mantissa, d.exponent)
  }

  /** The text of the positive value `m * 10^e`, `m` without trailing zeros. */
  function MagnitudeText(m: nat, e: int): (t: string)
    requires m > 0
    ensures t != [] && IsDigit(t[0])
  {
    var s := Numeral(m);
    var t := DecimalText(s, |s| + e);
    assert t[0] == s[0] || t[0] == '0';
    t
  }

  /** The digits `s` written with the decimal point `n` places from their start. */
  function DecimalText(s: string, n: int): string
    requires |s| >= 1
  {
    if |s| <= n <= 21 then s + Zeros(n - |s|)
    else if 0 < n <= 21 then s[..n] + "." + s[n..]
    else if -6 < n <= 0 then "0." + Zeros(-n) + s
    else ScientificText(s, n - 1)
  }

  /** The digits `s` in scientific notation with exponent `p`: one digit before the point. */
  function ScientificText(s: string, p: int): string
    requires |s| >= 1
  {
    var exponentPart := "e" + (if p >= 0 then "+" else "-") + Numeral(Abs(p));
    if |s| == 1 then s + exponentPart else s[..1] + "." + s[1..] + exponentPart
  }

  // ---------------------------------------------------------------------------
  // parseFloat (section 19.2.4 of ECMA-262) and parseInt with radix 10 (section 19.2.5)

  /** WhiteSpace and LineTerminator code points, which both functions skip at the start. */
  predicate IsJsSpace(c: char)
  {
    c == '\t' || c == '\n' || c == '\U{000B}' || c == '\U{000C}' || c == '\r' || c == ' '
    || c == '\U{00A0}' || c == '\U{1680}' || ('\U{2000}' <= c <= '\U{200A}')
    || c == '\U{2028}' || c == '\U{2029}' || c == '\U{202F}' || c == '\U{205F}'
    || c == '\U{3000}' || c == '\U{FEFF}'
  }

  function TrimStart(s: string): (t: string)
    ensures |t| <= |s| && t == s[|s| - |t|..]
    ensures t == [] || !IsJsSpace(t[0])
  {
    if s != [] && IsJsSpace(s[0]) then TrimStart(s[1..]) else s
  }

  /** The signed value of an ExponentPart at the start of `s`; 0 when `s` does not start with one. */
  function ExponentValue(s: string): int
  {
    if |s| >= 2 && (s[0] == 'e' || s[0] == 'E') then
      var digits := DigitPrefix(if s[1] == '+' || s[1] == '-' then s[2..] else s[1..]);
      if digits == [] then 0
      else if s[1] == '-' then 0 - DigitsValue(digits)
      else DigitsValue(digits)
    else 0
  }

  predicate StartsWithInfinity(b: string)
  {
    |b| >= 8 && b[..8] == "Infinity"
  }

  /** The longest prefix of `b` that is a StrUnsignedDecimalLiteral, or NaN if there is none. */
  function ParseUnsignedFloat(b: string): Number
  {
    if StartsWithInfinity(b) then Infinity(false)
    else
      var intPart := DigitPrefix(b);
      LiteralAfterDigits(intPart, b[|intPart|..])
  }

  /** The literal whose integer digits `intPart` (possibly none) are followed by `rest`. */
  function LiteralAfterDigits(intPart: string, rest: string): Number
    requires AllDigits(intPart)
  {
    if rest != [] && rest[0] == '.' then LiteralAfterPoint(intPart, rest[1..])
    else if intPart == [] then NaN
    else Finite(Normalize(DigitsValue(intPart), ExponentValue(rest)))
  }

  /** The literal whose integer digits `intPart` and a decimal point are followed by `rest`. */
  function LiteralAfterPoint(intPart: string, rest: string): Number
    requires AllDigits(intPart)
  {
    var fracPart := DigitPrefix(rest);
    if intPart == [] && fracPart == [] then NaN
    else
      Finite(Normalize(DigitsValue(intPart + fracPart), ExponentValue(rest[|fracPart|..]) - |fracPart|))
  }

  function ParseFloat(s: string): (r: Number)
    ensures TrimStart(s) == [] ==> r == NaN
  {
    var t := TrimStart(s);
    if t != [] && t[0] == '-' then Negate(ParseUnsignedFloat(t[1..]))
    else if t != [] && t[0] == '+' then ParseUnsignedFloat(t[1..])
    else ParseUnsignedFloat(t)
  }

  function ParseInt(s: string): (r: Number)
    ensures TrimStart(s) == [] ==> r == NaN
    ensures !r.Infinity?
    ensures r.Finite? ==> r.value.exponent >= 0
  {
    var t := TrimStart(s);
    var negative := t != [] && t[0] == '-';
    var body := if t != [] && (t[0] == '-' || t[0] == '+') then t[1..] else t;
    var digits := DigitPrefix(body);
    if digits == [] then NaN
    else
      var magnitude := Finite(Normalize(DigitsValue(digits), 0));
      if negative then Negate(magnitude) else magnitude
  }
}

module JsNumberLemmas {
  import opened JsNumbers

  lemma {:induction false} Pow10Monotone(i: nat, j: nat)
    requires i <= j
    ensures Pow10(i) <= Pow10(j)
    decreases j
  {
    if i < j { Pow10Monotone(i, j - 1); }
  }

  lemma MulAtLeast(d: int, b: int)
    requires d >= 1 && b >= 0
    ensures d * b >= b
  {
    assert d * b == (d - 1) * b + b;
  }

  /** Euclidean division is unique: `(q * p + r) / p == q` when `0 <= r < p`. */
  lemma QuotientOfParts(q: nat, r: nat, p: nat)
    requires r < p
    ensures (q * p + r) / p == q
  {
    var a := q * p + r;
    var d := q - a / p;
    assert a == (a / p) * p + a % p;
    assert d * p == q * p - (a / p) * p;
    assert d * p == a % p - r;
    if d > 0 {
      MulAtLeast(d, p);
    }
  }

  lemma NoInfinityPrefix(b: string)
    requires b != [] && IsDigit(b[0])
    ensures !StartsWithInfinity(b)
  {
    if |b| >= 8 { assert b[..8][0] == b[0]; }
  }

  lemma DigitsNotSpace(s: string)
    requires s != [] && (IsDigit(s[0]) || s[0] == '-')
    ensures TrimStart(s) == s
  {
  }

  lemma ExponentOfText(p: int)
    ensures ExponentValue("e" + (if p >= 0 then "+" else "-") + Numeral(Abs(p))) == p
  {
    var s := "e" + (if p >= 0 then "+" else "-") + Numeral(Abs(p));
    assert s[2..] == Numeral(Abs(p));
    DigitPrefixOf(Numeral(Abs(p)), "");
    assert Numeral(Abs(p)) + "" == Numeral(Abs(p));
    NumeralValue(Abs(p));
  }

  /** What follows the digits of a literal: nothing, or an exponent. */
  predicate EndsLiteral(ex: string)
  {
    ex == [] || ex[0] == 'e'
  }

  /** Digits followed by a non-digit: the parser reads those digits as the integer part. */
  lemma ParseDigitsThen(i: string, r: string)
    requires AllDigits(i) && i != [] && (r == [] || !IsDigit(r[0]))
    ensures ParseUnsignedFloat(i + r) == LiteralAfterDigits(i, r)
  {
    assert (i + r)[0] == i[0];
    NoInfinityPrefix(i + r);
    DigitPrefixOf(i, r);
    assert (i + r)[|i|..] == r;
  }

  /** An integer-only literal `i` followed by `ex`. */
  lemma ParseWhole(i: string, ex: string)
    requires AllDigits(i) && i != [] && EndsLiteral(ex)
    ensures ParseUnsignedFloat(i + ex) == Finite(Normalize(DigitsValue(i), ExponentValue(ex)))
  {
    ParseDigitsThen(i, ex);
  }

  /** Fraction digits followed by an exponent. */
  lemma FractionThen(i: string, f: string, ex: string, m: int, e: int)
    requires AllDigits(i) && i != [] && AllDigits(f) && EndsLiteral(ex)
    requires DigitsValue(i + f) == m && m % 10 != 0 && e == ExponentValue(ex) - |f|
    ensures LiteralAfterPoint(i, f + ex) == Finite(Decimal(m, e))
  {
    DigitPrefixOf(f, ex);
    assert (f + ex)[|f|..] == ex;
    assert m != 0 && Normalize(m, e) == Decimal(m, e);
  }

  lemma LeadingZero(f: string)
    ensures DigitsValue("0" + f) == DigitsValue(f)
  {
    DigitsValueAppend("0", f);
    var z := DigitsValue("0");
    assert z == 0;
    assert z * Pow10(|f|) == 0;
  }

  /** Fraction digits that end the text. */
  lemma FractionEnd(i: string, f: string, m: int, e: int)
    requires AllDigits(i) && i != [] && AllDigits(f)
    requires DigitsValue(i + f) == m && m % 10 != 0 && e == 0 - |f|
    ensures LiteralAfterPoint(i, f) == Finite(Decimal(m, e))
  {
    DigitPrefixOf(f, "");
    assert f + "" == f;
    assert f[|f|..] == [];
    assert ExponentValue([]) == 0;
  }

  /** A literal `i.f` with no exponent reads back as the digits scaled down by `|f|` places. */
  lemma ParsePointDecimal(i: string, f: string, m: int, e: int)
    requires AllDigits(i) && i != [] && AllDigits(f)
    requires DigitsValue(i + f) == m && m % 10 != 0 && e == 0 - |f|
    ensures ParseUnsignedFloat(i + "." + f) == Finite(Decimal(m, e))
  {
    assert i + "." + f == i + ("." + f);
    ParseDigitsThen(i, "." + f);
    assert ("." + f)[1..] == f;
    FractionEnd(i, f, m, e);
  }

  /** A literal `i.f` followed by an exponent. */
  lemma ParsePointExponent(i: string, f: string, ex: string, m: int, e: int)
    requires AllDigits(i) && i != [] && AllDigits(f) && EndsLiteral(ex)
    requires DigitsValue(i + f) == m && m % 10 != 0 && e == ExponentValue(ex) - |f|
    ensures ParseUnsignedFloat(i + "." + f + ex) == Finite(Decimal(m, e))
  {
    assert i + "." + f + ex == i + ("." + (f + ex));
    ParseDigitsThen(i, "." + (f + ex));
    assert ("." + (f + ex))[1..] == f + ex;
    FractionThen(i, f, ex, m, e);
  }

  /** Digits followed by zeros read back as the digits scaled up. */
  lemma ParsePlain(s: string, k: nat, m: int)
    requires AllDigits(s) && s != [] && DigitsValue(s) == m && m % 10 != 0
    ensures ParseUnsignedFloat(s + Zeros(k)) == Finite(Decimal(m, k))
  {
    var z := Zeros(k);
    ConcatDigits(s, z);
    ScaledValue(s, k);
    var v := DigitsValue(s + z);
    assert s + z + "" == s + z;
    ParseWhole(s + z, "");
    assert ExponentValue("") == 0;
    assert ParseUnsignedFloat(s + z) == Finite(Normalize(v, 0));
    NormalizeScaled(m, k, k);
    assert Normalize(v, 0) == Decimal(m, k);
  }

  /** Digits with a point after the first `n` of them read back as the digits scaled down. */
  lemma ParseFraction(s: string, n: int, m: int, e: int)
    requires AllDigits(s) && 0 < n < |s| && DigitsValue(s) == m && m % 10 != 0 && e == n - |s|
    ensures ParseUnsignedFloat(s[..n] + "." + s[n..]) == Finite(Decimal(m, e))
  {
    assert s[..n] + s[n..] == s;
    ParsePointDecimal(s[..n], s[n..], m, e);
  }

  /** `0.` and `k` zeros before the digits read back as the digits scaled down. */
  lemma ParseSmall(s: string, k: nat, m: int, e: int)
    requires AllDigits(s) && DigitsValue(s) == m && m % 10 != 0 && e == 0 - k - |s|
    ensures ParseUnsignedFloat("0." + Zeros(k) + s) == Finite(Decimal(m, e))
  {
    var z := Zeros(k);
    assert "0." + z + s == "0" + "." + (z + s);
    DigitsValueAppend(z, s);
    ZerosValue(k);
    var zv := DigitsValue(z);
    assert zv * Pow10(|s|) == 0;
    LeadingZero(z + s);
    ParsePointDecimal("0", z + s, m, e);
  }

  /** A one-digit mantissa in scientific notation. */
  lemma ParseScientificWhole(s: string, p: int, m: int)
    requires AllDigits(s) && |s| == 1 && DigitsValue(s) == m && m % 10 != 0
    ensures ParseUnsignedFloat(ScientificText(s, p)) == Finite(Decimal(m, p))
  {
    var ex := "e" + (if p >= 0 then "+" else "-") + Numeral(Abs(p));
    assert ScientificText(s, p) == s + ex;
    ExponentOfText(p);
    ParseWhole(s, ex);
    assert ParseUnsignedFloat(s + ex) == Finite(Normalize(m, p));
  }

  /** A longer mantissa in scientific notation, with a point after its first digit. */
  lemma ParseScientificPoint(s: string, p: int, m: int, e: int)
    requires AllDigits(s) && |s| > 1 && DigitsValue(s) == m && m % 10 != 0 && e == p - (|s| - 1)
    ensures ParseUnsignedFloat(ScientificText(s, p)) == Finite(Decimal(m, e))
  {
    var ex := "e" + (if p >= 0 then "+" else "-") + Numeral(Abs(p));
    assert ScientificText(s, p) == s[..1] + "." + s[1..] + ex;
    ExponentOfText(p);
    assert s[..1] + s[1..] == s;
    ParsePointExponent(s[..1], s[1..], ex, m, e);
  }

  lemma PlainRoundTrip(m: nat, e: int)
    requires m > 0 && m % 10 != 0 && |Numeral(m)| <= |Numeral(m)| + e <= 21
    ensures ParseUnsignedFloat(MagnitudeText(m, e)) == Finite(Decimal(m, e))
  {
    var s := Numeral(m);
    NumeralValue(m);
    assert MagnitudeText(m, e) == s + Zeros(e);
    ParsePlain(s, e, m);
  }

  lemma FractionRoundTrip(m: nat, e: int)
    requires m > 0 && m % 10 != 0 && 0 < |Numeral(m)| + e < |Numeral(m)| && |Numeral(m)| + e <= 21
    ensures ParseUnsignedFloat(MagnitudeText(m, e)) == Finite(Decimal(m, e))
  {
    var s := Numeral(m);
    var n := |s| + e;
    NumeralValue(m);
    assert MagnitudeText(m, e) == s[..n] + "." + s[n..];
    ParseFraction(s, n, m, e);
  }

  lemma SmallRoundTrip(m: nat, e: int)
    requires m > 0 && m % 10 != 0 && -6 < |Numeral(m)| + e <= 0
    ensures ParseUnsignedFloat(MagnitudeText(m, e)) == Finite(Decimal(m, e))
  {
    var s := Numeral(m);
    var n := |s| + e;
    NumeralValue(m);
    assert MagnitudeText(m, e) == "0." + Zeros(-n) + s;
    ParseSmall(s, -n, m, e);
  }

  lemma ScientificRoundTrip(m: nat, e: int)
    requires m > 0 && m % 10 != 0 && !(-6 < |Numeral(m)| + e <= 21)
    ensures ParseUnsignedFloat(MagnitudeText(m, e)) == Finite(Decimal(m, e))
  {
    var s := Numeral(m);
    var p := |s| + e - 1;
    NumeralValue(m);
    assert MagnitudeText(m, e) == ScientificText(s, p);
    if |s| == 1 {
      ParseScientificWhole(s, p, m);
    } else {
      ParseScientificPoint(s, p, m, e);
    }
  }

  /** The text of a positive number reads back as that number. */
  lemma MagnitudeRoundTrip(m: nat, e: int)
    requires m > 0 && m % 10 != 0
    ensures ParseUnsignedFloat(MagnitudeText(m, e)) == Finite(Decimal(m, e))
  {
    var n := |Numeral(m)| + e;
    if |Numeral(m)| <= n <= 21 {
      PlainRoundTrip(m, e);
    } else if 0 < n <= 21 {
      FractionRoundTrip(m, e);
    } else if -6 < n <= 0 {
      SmallRoundTrip(m, e);
    } else {
      ScientificRoundTrip(m, e);
    }
  }

  lemma PositiveText(m: nat, e: int)
    requires m > 0 && m % 10 != 0
    ensures ParseFloat(MagnitudeText(m, e)) == Finite(Decimal(m, e))
  {
    var t := MagnitudeText(m, e);
    MagnitudeRoundTrip(m, e);
    DigitsNotSpace(t);
  }

  lemma NegativeText(m: nat, e: int)
    requires m > 0 && m % 10 != 0
    ensures ParseFloat("-" + MagnitudeText(m, e)) == Negate(Finite(Decimal(m, e)))
  {
    var t := MagnitudeText(m, e);
    MagnitudeRoundTrip(m, e);
    DigitsNotSpace("-" + t);
    assert ("-" + t)[1..] == t;
  }

  lemma NaNText()
    ensures ParseFloat("NaN") == NaN
  {
    assert TrimStart("NaN") == "NaN";
    assert DigitPrefix("NaN") == "";
  }

  lemma UnsignedInfinityText()
    ensures ParseUnsignedFloat("Infinity") == Infinity(false)
  {
    assert StartsWithInfinity("Infinity");
  }

  lemma InfinityText()
    ensures ParseFloat("Infinity") == Infinity(false)
  {
    assert TrimStart("Infinity") == "Infinity";
    UnsignedInfinityText();
  }

  lemma NegativeInfinityText()
    ensures ParseFloat("-Infinity") == Infinity(true)
  {
    assert TrimStart("-Infinity") == "-Infinity";
    assert "-Infinity"[1..] == "Infinity";
    UnsignedInfinityText();
  }

  lemma ZeroText()
    ensures ParseFloat("0") == Zero
  {
    ParseWhole("0", "");
    assert "0" + "" == "0";
  }

  /** A string of decimal digits is read by both parsers as the integer it spells. */
  lemma ParseDigits(s: string)
    requires s != [] && AllDigits(s)
    ensures ParseFloat(s) == Finite(Normalize(DigitsValue(s), 0))
    ensures ParseInt(s) == Finite(Normalize(DigitsValue(s), 0))
  {
    assert s + "" == s;
    DigitsNotSpace(s);
    ParseWhole(s, "");
    ParseIntPrefix(s, "", DigitsValue(s));
  }

  /** `parseFloat(String(x))` gives back `x` for every number, NaN and the infinities included. */
  lemma ParseFloatOfText(x: Number)
    ensures ParseFloat(NumberToString(x)) == x
  {
    if x.NaN? {
      NaNText();
    } else if x == Infinity(false) {
      InfinityText();
    } else if x == Infinity(true) {
      NegativeInfinityText();
    } else {
      var m, e := x.value.mantissa, x.value.exponent;
      if m == 0 {
        assert NumberToString(x) == "0";
        ZeroText();
      } else if m > 0 {
        assert NumberToString(x) == MagnitudeText(m, e);
        PositiveText(m, e);
      } else {
        assert NumberToString(x) == "-" + MagnitudeText(-m, e);
        NegativeText(-m, e);
      }
    }
  }

  // ---------------------------------------------------------------------------
  // parseInt(String(x), 10)

  /** Digits followed by a non-digit: parseInt reads exactly those digits. */
  lemma ParseIntPrefix(i: string, r: string, v: int)
    requires AllDigits(i) && i != [] && (r == [] || !IsDigit(r[0])) && DigitsValue(i) == v
    ensures ParseInt(i + r) == Finite(Normalize(v, 0))
  {
    var t := i + r;
    assert t[0] == i[0];
    DigitsNotSpace(t);
    assert !(t[0] == '-' || t[0] == '+');
    DigitPrefixOf(i, r);
    assert DigitPrefix(t) == i;
  }

  /** The same digits after a minus sign give the negated value. */
  lemma ParseIntNegativePrefix(i: string, r: string, v: int)
    requires AllDigits(i) && i != [] && (r == [] || !IsDigit(r[0])) && DigitsValue(i) == v
    ensures ParseInt("-" + (i + r)) == Negate(Finite(Normalize(v, 0)))
  {
    var t := "-" + (i + r);
    DigitsNotSpace(t);
    assert t[1..] == i + r;
    DigitPrefixOf(i, r);
  }

  /** Dropping the last digits divides by a power of ten. */
  lemma QuotientOfAppend(a: string, b: string)
    ensures DigitsValue(a) == DigitsValue(a + b) / Pow10(|b|)
  {
    DigitsValueAppend(a, b);
    DigitsValueBound(b);
    QuotientOfParts(DigitsValue(a), DigitsValue(b), Pow10(|b|));
  }

  /** The digits parseInt reads from `DecimalText(s, n)`: all of them up to the point or the exponent. */
  function IntegerDigits(s: string, n: int): string
    requires |s| >= 1
  {
    if |s| <= n <= 21 then s + Zeros(n - |s|)
    else if 0 < n <= 21 then s[..n]
    else if -6 < n <= 0 then "0"
    else s[..1]
  }

  /** The rest of `DecimalText(s, n)` after its integer digits. */
  function AfterInteger(s: string, n: int): string
    requires |s| >= 1
  {
    if |s| <= n <= 21 then ""
    else if 0 < n <= 21 then "." + s[n..]
    else if -6 < n <= 0 then "." + Zeros(-n) + s
    else ScientificText(s, n - 1)[1..]
  }

  /** The two parts of a decimal text, and the digits stop where the rest starts. */
  predicate SplitsAtInteger(s: string, n: int)
    requires |s| >= 1
  {
    var i, r := IntegerDigits(s, n), AfterInteger(s, n);
    DecimalText(s, n) == i + r && AllDigits(i) && i != [] && (r == [] || !IsDigit(r[0]))
  }

  lemma PlainSplit(s: string, n: int)
    requires AllDigits(s) && |s| >= 1 && |s| <= n <= 21
    ensures SplitsAtInteger(s, n)
  {
    var i := s + Zeros(n - |s|);
    ConcatDigits(s, Zeros(n - |s|));
    assert i + "" == i;
  }

  lemma FractionSplit(s: string, n: int)
    requires AllDigits(s) && |s| >= 1 && 0 < n < |s| && n <= 21
    ensures SplitsAtInteger(s, n)
  {
    assert s[..n] + "." + s[n..] == s[..n] + ("." + s[n..]);
  }

  lemma SmallSplit(s: string, n: int)
    requires AllDigits(s) && |s| >= 1 && -6 < n <= 0
    ensures SplitsAtInteger(s, n)
  {
    assert "0." + Zeros(-n) + s == "0" + ("." + Zeros(-n) + s);
  }

  lemma ScientificSplit(s: string, n: int)
    requires AllDigits(s) && |s| >= 1 && !(-6 < n <= 21)
    ensures SplitsAtInteger(s, n)
  {
    var t := ScientificText(s, n - 1);
    assert t[0] == s[0];
    assert t == s[..1] + t[1..];
    assert t[1..] == [] || t[1] == '.' || t[1] == 'e';
  }

  lemma DecimalTextSplit(s: string, n: int)
    requires AllDigits(s) && |s| >= 1
    ensures SplitsAtInteger(s, n)
  {
    if |s| <= n <= 21 {
      PlainSplit(s, n);
    } else if 0 < n <= 21 {
      FractionSplit(s, n);
    } else if -6 < n <= 0 {
      SmallSplit(s, n);
    } else {
      ScientificSplit(s, n);
    }
  }

  /** parseInt reads the integer digits of a decimal text. */
  lemma ParseIntOfDecimalText(s: string, n: int)
    requires AllDigits(s) && |s| >= 1
    ensures ParseInt(DecimalText(s, n)) == Finite(Normalize(DigitsValue(IntegerDigits(s, n)), 0))
  {
    DecimalTextSplit(s, n);
    ParseIntPrefix(IntegerDigits(s, n), AfterInteger(s, n), DigitsValue(IntegerDigits(s, n)));
  }

  /** After a minus sign, parseInt reads the same digits and negates them. */
  lemma ParseIntOfNegativeDecimalText(s: string, n: int)
    requires AllDigits(s) && |s| >= 1
    ensures ParseInt("-" + DecimalText(s, n)) == Negate(Finite(Normalize(DigitsValue(IntegerDigits(s, n)), 0)))
  {
    DecimalTextSplit(s, n);
    ParseIntNegativePrefix(IntegerDigits(s, n), AfterInteger(s, n), DigitsValue(IntegerDigits(s, n)));
  }

  lemma TruncWhole(m: nat, e: int)
    requires m > 0 && m % 10 != 0 && 0 <= e && |Numeral(m)| + e <= 21
    ensures Normalize(DigitsValue(IntegerDigits(Numeral(m), |Numeral(m)| + e)), 0) == Trunc(Decimal(m, e))
  {
    var s := Numeral(m);
    assert IntegerDigits(s, |s| + e) == s + Zeros(e);
    ScaledValue(s, e);
    NumeralValue(m);
    NormalizeScaled(m, e, e);
    assert e - e == 0;
  }

  /** The first `n` digits of `s` are its value divided by a power of ten. */
  lemma PrefixQuotient(s: string, n: nat, m: int)
    requires n <= |s| && DigitsValue(s) == m
    ensures DigitsValue(s[..n]) == m / Pow10(|s| - n)
  {
    assert s[..n] + s[n..] == s;
    QuotientOfAppend(s[..n], s[n..]);
  }

  lemma TruncFraction(m: nat, e: int)
    requires m > 0 && m % 10 != 0 && e < 0 && 0 < |Numeral(m)| + e <= 21
    ensures Normalize(DigitsValue(IntegerDigits(Numeral(m), |Numeral(m)| + e)), 0) == Trunc(Decimal(m, e))
  {
    var s := Numeral(m);
    var n := |s| + e;
    NumeralValue(m);
    assert IntegerDigits(s, n) == s[..n];
    PrefixQuotient(s, n, m);
    assert Trunc(Decimal(m, e)) == Normalize(m / Pow10(|s| - n), 0);
  }

  lemma TruncSmall(m: nat, e: int)
    requires m > 0 && m % 10 != 0 && -6 < |Numeral(m)| + e <= 0
    ensures Normalize(DigitsValue(IntegerDigits(Numeral(m), |Numeral(m)| + e)), 0) == Trunc(Decimal(m, e))
  {
    var s := Numeral(m);
    assert IntegerDigits(s, |s| + e) == "0";
    assert DigitsValue("0") == 0;
    NumeralBound(m);
    Pow10Monotone(|s|, -e);
    var p := Pow10(-e);
    QuotientOfParts(0, m, p);
    assert 0 * p + m == m;
    var q := m / p;
    assert q == 0;
    assert Trunc(Decimal(m, e)) == Normalize(q, 0);
  }

  /** Below 10^21 and from 10^-6 on, the integer digits of the text are the integer part. */
  lemma IntegerDigitsAreTrunc(m: nat, e: int)
    requires m > 0 && m % 10 != 0 && -6 < |Numeral(m)| + e <= 21
    ensures Normalize(DigitsValue(IntegerDigits(Numeral(m), |Numeral(m)| + e)), 0) == Trunc(Decimal(m, e))
  {
    if e >= 0 {
      TruncWhole(m, e);
    } else if |Numeral(m)| + e > 0 {
      TruncFraction(m, e);
    } else {
      TruncSmall(m, e);
    }
  }

  lemma PositiveIntText(m: nat, e: int)
    requires m > 0 && m % 10 != 0 && -6 < |Numeral(m)| + e <= 21
    ensures ParseInt(MagnitudeText(m, e)) == Finite(Trunc(Decimal(m, e)))
  {
    var s := Numeral(m);
    ParseIntOfDecimalText(s, |s| + e);
    IntegerDigitsAreTrunc(m, e);
  }

  lemma NegativeIntText(m: nat, e: int)
    requires m > 0 && m % 10 != 0 && -6 < |Numeral(m)| + e <= 21
    ensures ParseInt("-" + MagnitudeText(m, e)) == Negate(Finite(Trunc(Decimal(m, e))))
  {
    var s := Numeral(m);
    ParseIntOfNegativeDecimalText(s, |s| + e);
    IntegerDigitsAreTrunc(m, e);
  }

  /** Truncation commutes with negation. */
  lemma TruncNegate(m: int, e: int)
    requires m > 0 && m % 10 != 0 && (-m) % 10 != 0
    ensures Finite(Trunc(Decimal(-m, e))) == Negate(Finite(Trunc(Decimal(m, e))))
  {
    if e < 0 {
      var q := m / Pow10(-e);
      assert Trunc(Decimal(m, e)) == Normalize(q, 0);
      assert Trunc(Decimal(-m, e)) == Normalize(-q, 0);
      NormalizeNegate(q, 0);
    }
  }

  lemma ZeroIntText()
    ensures ParseInt("0") == Zero
  {
    assert "0" == "0" + "";
    ParseIntPrefix("0", "", 0);
  }

  lemma PositiveDecimalIntText(d: NormalDecimal)
    requires d.mantissa > 0 && -6 < Order(d) <= 21
    ensures ParseInt(NumberToString(Finite(d))) == Finite(Trunc(d))
  {
    var m, e := d.mantissa, d.exponent;
    assert NumberToString(Finite(d)) == MagnitudeText(m, e);
    PositiveIntText(m, e);
  }

  lemma NegativeDecimalIntText(d: NormalDecimal)
    requires d.mantissa < 0 && -6 < Order(d) <= 21
    ensures ParseInt(NumberToString(Finite(d))) == Finite(Trunc(d))
  {
    var a, e := -d.mantissa, d.exponent;
    assert NumberToString(Finite(d)) == "-" + MagnitudeText(a, e);
    assert IsNormal(d);
    assert a % 10 != 0;
    NegativeIntText(a, e);
    TruncNegate(a, e);
    assert Decimal(-a, e) == d;
  }

  /** parseInt(String(x), 10) is the integer part of `x` whenever `String(x)` is not in exponent form. */
  lemma ParseIntOfText(x: Number)
    requires x.Finite? && (x.value.mantissa == 0 || -6 < Order(x.value) <= 21)
    ensures ParseInt(NumberToString(x)) == Finite(Trunc(x.value))
  {
    if x.value.mantissa == 0 {
      assert NumberToString(x) == "0";
      ZeroIntText();
    } else if x.value.mantissa > 0 {
      PositiveDecimalIntText(x.value);
    } else {
      NegativeDecimalIntText(x.value);
    }
  }

  /** The first digit of the numeral of `m`, as a number. */
  function FirstDigit(m: nat): Number
  {
    Finite(Normalize(DigitOf(Numeral(m)[0]), 0))
  }

  lemma FirstDigitValue(s: string)
    requires |s| >= 1
    ensures DigitsValue(s[..1]) == DigitOf(s[0])
  {
    assert s[..1][..0] == [];
  }

  /** In exponent form the integer digits are the first digit alone. */
  lemma ScientificIntegerValue(m: nat, e: int)
    requires m > 0 && !(-6 < |Numeral(m)| + e <= 21)
    ensures Finite(Normalize(DigitsValue(IntegerDigits(Numeral(m), |Numeral(m)| + e)), 0)) == FirstDigit(m)
  {
    var s := Numeral(m);
    assert IntegerDigits(s, |s| + e) == s[..1];
    FirstDigitValue(s);
  }

  lemma ExponentFormText(m: nat, e: int)
    requires m > 0 && !(-6 < |Numeral(m)| + e <= 21)
    ensures ParseInt(MagnitudeText(m, e)) == FirstDigit(m)
  {
    var s := Numeral(m);
    ParseIntOfDecimalText(s, |s| + e);
    ScientificIntegerValue(m, e);
  }

  lemma NegativeExponentFormText(m: nat, e: int)
    requires m > 0 && !(-6 < |Numeral(m)| + e <= 21)
    ensures ParseInt("-" + MagnitudeText(m, e)) == Negate(FirstDigit(m))
  {
    var s := Numeral(m);
    ParseIntOfNegativeDecimalText(s, |s| + e);
    ScientificIntegerValue(m, e);
  }

  /** The first digit of a nonzero decimal's mantissa, with the decimal's sign. */
  function SignedFirstDigit(d: Decimal): Number
    requires d.mantissa != 0
  {
    if d.mantissa > 0 then FirstDigit(d.mantissa) else Negate(FirstDigit(-d.mantissa))
  }

  lemma PositiveExponentForm(d: NormalDecimal)
    requires d.mantissa > 0 && !(-6 < Order(d) <= 21)
    ensures ParseInt(NumberToString(Finite(d))) == SignedFirstDigit(d)
  {
    var m, e := d.mantissa, d.exponent;
    assert NumberToString(Finite(d)) == MagnitudeText(m, e);
    ExponentFormText(m, e);
  }

  lemma NegativeExponentForm(d: NormalDecimal)
    requires d.mantissa < 0 && !(-6 < Order(d) <= 21)
    ensures ParseInt(NumberToString(Finite(d))) == SignedFirstDigit(d)
  {
    var a, e := -d.mantissa, d.exponent;
    assert NumberToString(Finite(d)) == "-" + MagnitudeText(a, e);
    NegativeExponentFormText(a, e);
  }

  /** In exponent form parseInt stops at the point or at the `e`: it reads the first digit only. */
  lemma ParseIntOfExponentForm(x: Number)
    requires x.Finite? && x.value.mantissa != 0 && !(-6 < Order(x.value) <= 21)
    ensures ParseInt(NumberToString(x)) == SignedFirstDigit(x.value)
  {
    if x.value.mantissa > 0 {
      PositiveExponentForm(x.value);
    } else {
      NegativeExponentForm(x.value);
    }
  }
}
