/**
 * The JavaScript values the helpers accept and return, the tests `v != null` and
 * `!!v` that they apply, the string conversion `'' + v` (and the template literal
 * `${v}` in their error messages), and the TypeError they throw.
 */
module JsValues {
  import opened JsNumbers

  /**
   * What a Date object holds. A date made by `new Date(number)` keeps the number;
   * one made by `new Date(text)` keeps the text it was made from. Turning either
   * into a time value (the host's ISO parser, its time zone) is not modelled.
   */
  datatype DateStamp = FromTime(time: Number) | FromText(text: string)

  /** Arrays are values here: two arrays are the same when their elements are. */
  datatype JsValue =
    | Null
    | Undefined
    | Bool(b: bool)
    | Num(n: Number)
    | Str(s: string)
    | Arr(items: seq<JsValue>)
    | DateObj(stamp: DateStamp)

  /** `v == null`: loose equality with null holds for null and undefined only. */
  predicate IsAbsent(v: JsValue): (a: bool)
    ensures a <==> !Truthy(v) && !v.Bool? && !v.Num? && !v.Str?
  {
    v.Null? || v.Undefined?
  }

  /** `!!v` (ToBoolean): false, 0, NaN, "" and the two absent values are falsy, every object is truthy. */
  predicate Truthy(v: JsValue): (b: bool)
    ensures v.Null? || v.Undefined? ==> !b
    ensures v.Arr? || v.DateObj? ==> b
    ensures v.Bool? ==> b == v.b
    ensures v.Str? ==> (b <==> |v.s| > 0)
    ensures v.Num? && v.n.Finite? ==> (b <==> v.n.value.mantissa != 0)
    ensures v.Num? && v.n.Infinity? ==> b
    ensures v.Num? && v.n.NaN? ==> !b
  {
    match v
    case Null => false
    case Undefined => false
    case Bool(b) => b
    case Num(x) => x != NaN && x != Zero
    case Str(s) => s != ""
    case Arr(_) => true
    case DateObj(_) => true
  }

  /**
   * `'' + v` (ToString after ToPrimitive). An array joins its elements with ","
   * and writes null and undefined elements as empty text; a Date's text comes
   * from `Date.prototype.toString`, which depends on the host's time zone and is
   * therefore the parameter `dateText`.
   */
  function ToStr(dateText: DateStamp -> string, v: JsValue): (r: string)
    ensures v.Str? ==> r == v.s
    ensures v.Num? ==> r == NumberToString(v.n)
    ensures v.Arr? && v.items == [] ==> r == ""
    decreases v
  {
    match v
    case Null => "null"
    case Undefined => "undefined"
    case Bool(b) => if b then "true" else "false"
    case Num(x) => NumberToString(x)
    case Str(s) => s
    case Arr(items) =>
      JoinWithCommas(seq(|items|, i requires 0 <= i < |items| =>
        if IsAbsent(items[i]) then "" else ToStr(dateText, items[i])))
    case DateObj(stamp) => dateText(stamp)
  }

  /** `parts.join(",")` */
  function JoinWithCommas(parts: seq<string>): (r: string)
    ensures |parts| == 1 ==> r == parts[0]
  {
    if parts == [] then ""
    else if |parts| == 1 then parts[0]
    else JoinWithCommas(parts[..|parts| - 1]) + "," + parts[|parts| - 1]
  }

  /** A thrown `TypeError` and its message. */
  datatype TypeError = TypeError(message: string)

  /** A call either returns a value or throws a TypeError. */
  datatype Result<T> = Success(value: T) | Failure(error: TypeError)

  /** The message `"${v}" is not a valid <kind> value.` of the coercions and of parseDate. */
  function InvalidValue(text: string, kind: string): (e: TypeError)
    ensures |e.message| > |text| + 1 && e.message[0] == '"' && e.message[1..|text| + 1] == text
    ensures e.message[|text| + 1..] == "\" is not a valid " + kind + " value."
  {
    TypeError("\"" + text + "\" is not a valid " + kind + " value.")
  }

  /** The message names the text: two texts with the same message, for one kind, are the same text. */
  lemma InvalidValueInjective(a: string, b: string, kind: string)
    requires InvalidValue(a, kind) == InvalidValue(b, kind)
    ensures a == b
  {
    var m := InvalidValue(a, kind).message;
    assert |a| == |b|;
    assert a == m[1..|a| + 1] == b;
  }
}
