/**
 * `coalesce` and the `coerceTo…` helpers: a present value (neither null nor
 * undefined) is converted, an absent or unconvertible one falls back to the
 * default `d`, converted the same way with no default of its own.
 */
module Coercion {
  import opened Wrappers
  import opened JsNumbers
  import opened JsNumberLemmas
  import opened JsValues
  import opened DatePattern
  import opened DateParsing

  // ---------------------------------------------------------------------------
  // coalesce

  /** `coalesce(...args)`: the first present argument, or undefined when there is none. */
  method Coalesce(args: seq<JsValue>) returns (v: JsValue)
    ensures IsAbsent(v) ==> v == Undefined && forall i :: 0 <= i < |args| ==> IsAbsent(args[i])
    ensures !IsAbsent(v) ==>
      exists i :: 0 <= i < |args| && args[i] == v && (forall j :: 0 <= j < i ==> IsAbsent(args[j]))
  {
    var i := 0;
    while i < |args|
      invariant 0 <= i <= |args|
      invariant forall j :: 0 <= j < i ==> IsAbsent(args[j])
    {
      v := args[i];
      if !IsAbsent(v) {
        return;
      }
      i := i + 1;
    }
    v := Undefined;
  }

  // ---------------------------------------------------------------------------
  // coerceToArray, coerceToBoolean, coerceToString

  /** The recursion on the default ends: the default's own default is undefined. */
  function Rank(d: JsValue): nat
  {
    if IsAbsent(d) then 0 else 1
  }

  /**
   * `coerceToArray(v, d)`: an array stays as it is, any other truthy value is
   * wrapped, and a falsy one gives way to the default.
   */
  function CoerceToArray(v: JsValue, d: JsValue): (r: JsValue)
    ensures r.Arr? || r == Undefined
    ensures r.Arr? <==> v.Arr? || Truthy(v) || d.Arr? || Truthy(d)
    ensures v.Arr? ==> r == v
    ensures !v.Arr? && Truthy(v) ==> r == Arr([v])
    ensures !Truthy(v) && d.Arr? ==> r == d
    ensures !Truthy(v) && !d.Arr? && Truthy(d) ==> r == Arr([d])
    decreases Rank(d)
  {
    if v.Arr? then v
    else if Truthy(v) then Arr([v])
    else if !IsAbsent(d) then CoerceToArray(d, Undefined)
    else Undefined
  }

  /** `coerceToBoolean(v, d)`: `!!v` for a present `v`, else the default's truth, else undefined. */
  function CoerceToBoolean(v: JsValue, d: JsValue): (r: JsValue)
    ensures r.Bool? || r == Undefined
    ensures r.Bool? <==> !IsAbsent(v) || !IsAbsent(d)
    ensures r.Bool? ==> r.b == Truthy(if IsAbsent(v) then d else v)
    decreases Rank(d)
  {
    if !IsAbsent(v) then Bool(Truthy(v))
    else if !IsAbsent(d) then CoerceToBoolean(d, Undefined)
    else Undefined
  }

  /** `coerceToString(v, d)`: `'' + v` for a present `v`, else the default's text, else undefined. */
  function CoerceToString(dateText: DateStamp -> string, v: JsValue, d: JsValue): (r: JsValue)
    ensures r.Str? || r == Undefined
    ensures r.Str? <==> !IsAbsent(v) || !IsAbsent(d)
    ensures r.Str? ==> r.s == ToStr(dateText, if IsAbsent(v) then d else v)
    decreases Rank(d)
  {
    if !IsAbsent(v) then Str(ToStr(dateText, v))
    else if !IsAbsent(d) then CoerceToString(dateText, d, Undefined)
    else Undefined
  }

  /** A present string result is a fixed point of `coerceToString`, whatever the default. */
  lemma CoerceToStringIdempotent(dateText: DateStamp -> string, v: JsValue, d: JsValue, e: JsValue)
    requires CoerceToString(dateText, v, d).Str?
    ensures CoerceToString(dateText, CoerceToString(dateText, v, d), e) == CoerceToString(dateText, v, d)
  {
  }

  // ---------------------------------------------------------------------------
  // coerceToNumber and coerceToInt

  /**
   * The shared shape of `coerceToNumber` and `coerceToInt`: `parse` is applied
   * to the text of a present `v`; a result other than NaN is returned (zero
   * included), otherwise the default is coerced the same way; with neither, an
   * absent `v` gives undefined and a present one throws a TypeError naming it.
   */
  function CoerceParsed(parse: string -> Number, kind: string, dateText: DateStamp -> string,
                        v: JsValue, d: JsValue): (r: Result<JsValue>)
    ensures r.Success? ==> r.value == Undefined || (r.value.Num? && r.value.n != NaN)
    ensures r == Success(Undefined) <==> IsAbsent(v) && IsAbsent(d)
    ensures r.Failure? <==>
      (!IsAbsent(v) || !IsAbsent(d)) &&
      (IsAbsent(v) || parse(ToStr(dateText, v)) == NaN) &&
      (IsAbsent(d) || parse(ToStr(dateText, d)) == NaN)
    ensures r.Failure? ==> r.error == InvalidValue(ToStr(dateText, if IsAbsent(d) then v else d), kind)
    ensures r.Success? && r.value.Num? ==>
      r.value.n == parse(ToStr(dateText, if !IsAbsent(v) && parse(ToStr(dateText, v)) != NaN then v else d))
    decreases Rank(d)
  {
    if !IsAbsent(v) && parse(ToStr(dateText, v)) != NaN then Success(Num(parse(ToStr(dateText, v))))
    else if !IsAbsent(d) then CoerceParsed(parse, kind, dateText, d, Undefined)
    else if IsAbsent(v) then Success(Undefined)
    else Failure(InvalidValue(ToStr(dateText, v), kind))
  }

  /** A present value whose text parses is returned parsed, whatever the default. */
  lemma ParsedWins(parse: string -> Number, kind: string, dateText: DateStamp -> string,
                   v: JsValue, d: JsValue, x: Number)
    requires !IsAbsent(v) && parse(ToStr(dateText, v)) == x && x != NaN
    ensures CoerceParsed(parse, kind, dateText, v, d) == Success(Num(x))
  {
  }

  /**
   * `coerceToNumber(v, d)`, with `parseFloat`. A number other than NaN comes
   * back unchanged, because `parseFloat(String(x))` is `x`.
   */
  function CoerceToNumber(dateText: DateStamp -> string, v: JsValue, d: JsValue): (r: Result<JsValue>)
    ensures v.Num? && v.n != NaN ==> r == Success(v)
  {
    if v.Num? && v.n != NaN then
      ParseFloatOfText(v.n);
      ParsedWins(ParseFloat, "number", dateText, v, d, v.n);
      CoerceParsed(ParseFloat, "number", dateText, v, d)
    else CoerceParsed(ParseFloat, "number", dateText, v, d)
  }

  /**
   * `coerceToInt(v, d)`, with `parseInt(·, 10)`. A finite number whose text is
   * not in exponent form comes back truncated toward zero.
   */
  function CoerceToInt(dateText: DateStamp -> string, v: JsValue, d: JsValue): (r: Result<JsValue>)
    ensures v.Num? && v.n.Finite? && (v.n.value.mantissa == 0 || -6 < Order(v.n.value) <= 21) ==>
      r == Success(Num(Finite(Trunc(v.n.value))))
  {
    if v.Num? && v.n.Finite? && (v.n.value.mantissa == 0 || -6 < Order(v.n.value) <= 21) then
      ParseIntOfText(v.n);
      ParsedWins(ParseInt, "integer", dateText, v, d, Finite(Trunc(v.n.value)));
      CoerceParsed(ParseInt, "integer", dateText, v, d)
    else CoerceParsed(ParseInt, "integer", dateText, v, d)
  }

  /** A present value whose text does not parse gives way to a present default. */
  lemma UnparsedDefers(parse: string -> Number, kind: string, dateText: DateStamp -> string,
                       v: JsValue, d: JsValue)
    requires (IsAbsent(v) || parse(ToStr(dateText, v)) == NaN) && !IsAbsent(d)
    ensures CoerceParsed(parse, kind, dateText, v, d) == CoerceParsed(parse, kind, dateText, d, Undefined)
  {
  }

  /** In exponent form `parseInt` stops after the first digit: `coerceToInt(1e21)` is 1. */
  lemma IntOfExponentForm(dateText: DateStamp -> string, x: Number, d: JsValue)
    requires x.Finite? && x.value.mantissa != 0 && !(-6 < Order(x.value) <= 21)
    ensures CoerceToInt(dateText, Num(x), d) == Success(Num(SignedFirstDigit(x.value)))
  {
    ParseIntOfExponentForm(x);
    ParsedWins(ParseInt, "integer", dateText, Num(x), d, SignedFirstDigit(x.value));
  }

  /** Text starting with an ASCII letter other than the `I` of `Infinity` does not parse as a number. */
  lemma LetterTextIsNaN(s: string)
    requires s != [] && ('a' <= s[0] <= 'z' || 'A' <= s[0] <= 'Z') && s[0] != 'I'
    ensures ParseFloat(s) == NaN && ParseInt(s) == NaN
  {
    assert !IsJsSpace(s[0]);
    assert TrimStart(s) == s;
    assert !StartsWithInfinity(s) by {
      if |s| >= 8 {
        assert s[..8][0] == s[0];
      }
    }
    assert DigitPrefix(s) == "";
    assert s[|DigitPrefix(s)|..] == s;
  }

  /** `coerceToNumber('abc')` and `coerceToInt('abc')` throw, naming the text. */
  lemma LettersThrow(dateText: DateStamp -> string)
    ensures CoerceToNumber(dateText, Str("abc"), Undefined) == Failure(InvalidValue("abc", "number"))
    ensures CoerceToInt(dateText, Str("abc"), Undefined) == Failure(InvalidValue("abc", "integer"))
  {
    LetterTextIsNaN("abc");
    assert ToStr(dateText, Str("abc")) == "abc";
  }

  /** `parseInt('1.1')` reads the digits before the point. */
  lemma ParseIntOfOnePointOne()
    ensures ParseInt("1.1") == Finite(Decimal(1, 0))
  {
    assert "1.1" == "1" + ".1";
    assert DigitsValue("1") == 1;
    ParseIntPrefix("1", ".1", 1);
  }

  /** `coerceToInt('1.1')` reads the digits before the point. */
  lemma IntOfDecimalText(dateText: DateStamp -> string, d: JsValue)
    ensures CoerceToInt(dateText, Str("1.1"), d) == Success(Num(Finite(Decimal(1, 0))))
  {
    ParseIntOfOnePointOne();
    assert ToStr(dateText, Str("1.1")) == "1.1";
    ParsedWins(ParseInt, "integer", dateText, Str("1.1"), d, Finite(Decimal(1, 0)));
  }

  /** `coerceToInt(1.1)` is 1 as well. */
  lemma IntOfDecimalNumber(dateText: DateStamp -> string, d: JsValue)
    ensures CoerceToInt(dateText, Num(Finite(Decimal(11, -1))), d) == Success(Num(Finite(Decimal(1, 0))))
  {
    assert Numeral(11) == Numeral(1) + [DigitChar(1)];
    assert Order(Decimal(11, -1)) == 1;
    assert Trunc(Decimal(11, -1)) == Normalize(1, 0);
  }

  // ---------------------------------------------------------------------------
  // coerceToDate

  /** Values `coerceToDate` converts itself: Dates, numbers and strings. */
  predicate DateSource(v: JsValue)
  {
    v.DateObj? || v.Num? || v.Str?
  }

  /** A value `coerceToDate` rejects when it has to convert it. */
  predicate DateRejected(v: JsValue)
  {
    !IsAbsent(v) && (!DateSource(v) || (v.Str? && MatchDate(v.s).None?))
  }

  /**
   * `coerceToDate(v, d)`: a Date is returned as it is, a number becomes a Date
   * on that time value, a string goes through `parseDate` (which throws on a
   * malformed one, whatever the default); anything else gives way to the
   * default, and with no default a present value throws.
   */
  function CoerceToDate(dateText: DateStamp -> string, v: JsValue, d: JsValue): (r: Result<JsValue>)
    ensures r.Success? ==> r.value.DateObj? || r.value == Undefined
    ensures r == Success(Undefined) <==> IsAbsent(v) && IsAbsent(d)
    ensures v.DateObj? ==> r == Success(v)
    ensures v.Num? ==> r == Success(DateObj(FromTime(v.n)))
    ensures v.Str? ==> r == ParseDateValue(v.s, NoOptions)
    ensures !DateSource(v) && !IsAbsent(d) && d.DateObj? ==> r == Success(d)
    ensures !DateSource(v) && !IsAbsent(d) && d.Num? ==> r == Success(DateObj(FromTime(d.n)))
    ensures !DateSource(v) && !IsAbsent(d) && d.Str? ==> r == ParseDateValue(d.s, NoOptions)
    ensures r.Failure? <==>
      (v.Str? && MatchDate(v.s).None?) ||
      (!DateSource(v) && (!IsAbsent(v) || !IsAbsent(d)) && (IsAbsent(d) || DateRejected(d)))
    ensures r.Failure? ==>
      r.error == InvalidValue(ToStr(dateText, if IsAbsent(d) || DateSource(v) then v else d), "date")
    decreases Rank(d)
  {
    if !IsAbsent(v) && v.DateObj? then Success(v)
    else if !IsAbsent(v) && v.Num? then Success(DateObj(FromTime(v.n)))
    else if !IsAbsent(v) && v.Str? then ParseDateValue(v.s, NoOptions)
    else if !IsAbsent(d) then CoerceToDate(dateText, d, Undefined)
    else if IsAbsent(v) then Success(Undefined)
    else Failure(InvalidValue(ToStr(dateText, v), "date"))
  }
}
