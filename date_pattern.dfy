/**
 * `DATE_FORMAT_PATTERN`, the regular expression that `parseDate` matches its
 * argument against, and what `String.prototype.match` returns for it.
 *
 *   ^(\d{4}) -? (0[1-9]|1[012])? -? ([123]0|[012][1-9]|31)?
 *    (?: [T ]? ([01][0-9]|2[0-3]) :? ([0-5][0-9]) :? ([0-5][0-9])? (?:\.(\d+))?
 *        (?: (Z) | (?: ([+-]) ([01]?[0-9]|2[0-3]) :? ([0-5][0-9])? ) )? )? $
 *
 * The matcher is written as one function per element of the pattern, read left
 * to right. Each function receives the text and a position and returns the
 * captures of its own groups and of every group after it, or `None` when the
 * rest of the pattern cannot match from that position. An optional element first
 * tries to take part and keeps that choice when the rest of the pattern then
 * matches; otherwise it is skipped, and alternatives are tried left to right:
 * the order in which a backtracking matcher explores the pattern, so the
 * captures are those of the first match it finds.
 */
module DatePattern {
  import opened Wrappers
  import opened JsNumbers

  /** The eleven groups of the pattern; `None` is a group that took no part in the match. */
  datatype Captures = Captures(
    year: string,                  // group 1
    month: Option<string>,         // group 2
    day: Option<string>,           // group 3
    hour: Option<string>,          // group 4
    minute: Option<string>,        // group 5
    second: Option<string>,        // group 6
    fraction: Option<string>,      // group 7
    utc: bool,                     // group 8, the letter Z
    sign: Option<string>,          // group 9
    offsetHour: Option<string>,    // group 10
    offsetMinute: Option<string>)  // group 11

  const NoCaptures: Captures := Captures("", None, None, None, None, None, None, false, None, None, None)

  // ---------------------------------------------------------------------------
  // The shapes of the groups

  /** `0[1-9]|1[012]` */
  predicate IsMonth(s: string)
  {
    |s| == 2 && ((s[0] == '0' && '1' <= s[1] <= '9') || (s[0] == '1' && '0' <= s[1] <= '2'))
  }

  /** `[123]0|[012][1-9]|31` */
  predicate IsDay(s: string)
  {
    |s| == 2 && (('1' <= s[0] <= '3' && s[1] == '0') || ('0' <= s[0] <= '2' && '1' <= s[1] <= '9') || s == "31")
  }

  /** `[01][0-9]|2[0-3]` */
  predicate IsHour(s: string)
  {
    |s| == 2 && (('0' <= s[0] <= '1' && IsDigit(s[1])) || (s[0] == '2' && '0' <= s[1] <= '3'))
  }

  /** `[0-5][0-9]`, minutes and seconds */
  predicate IsSixtieth(s: string)
  {
    |s| == 2 && '0' <= s[0] <= '5' && IsDigit(s[1])
  }

  /** `[01]?[0-9]|2[0-3]`: one digit, or two as for an hour */
  predicate IsOffsetHour(s: string)
  {
    (|s| == 1 && IsDigit(s[0])) || IsHour(s)
  }

  // ---------------------------------------------------------------------------
  // The captures a match can produce, from the last group back to the first

  /** The groups from `first` on, with every earlier group left out. */
  function OffsetFields(c: Captures): Captures
  {
    NoCaptures.(offsetHour := c.offsetHour, offsetMinute := c.offsetMinute)
  }

  function ZoneFields(c: Captures): Captures
  {
    OffsetFields(c).(utc := c.utc, sign := c.sign)
  }

  function FractionFields(c: Captures): Captures
  {
    ZoneFields(c).(fraction := c.fraction)
  }

  function SecondFields(c: Captures): Captures
  {
    FractionFields(c).(second := c.second)
  }

  function MinuteFields(c: Captures): Captures
  {
    SecondFields(c).(minute := c.minute)
  }

  function TimeFields(c: Captures): Captures
  {
    MinuteFields(c).(hour := c.hour)
  }

  function DayFields(c: Captures): Captures
  {
    TimeFields(c).(day := c.day)
  }

  function MonthFields(c: Captures): Captures
  {
    DayFields(c).(month := c.month)
  }

  /** Group 11 is optional; when present it is minutes. */
  predicate OffsetMinuteValid(c: Captures)
  {
    c.offsetMinute.Some? ==> IsSixtieth(c.offsetMinute.value)
  }

  /** The zone: `Z`, or a sign with an hour and optional minutes, or nothing at all. */
  predicate ZoneValid(c: Captures)
  {
    if c.utc then c.sign.None? && c.offsetHour.None? && c.offsetMinute.None?
    else if c.sign.Some? then
      (c.sign.value == "+" || c.sign.value == "-")
      && c.offsetHour.Some? && IsOffsetHour(c.offsetHour.value) && OffsetMinuteValid(c)
    else c.offsetHour.None? && c.offsetMinute.None?
  }

  predicate FractionValid(c: Captures)
  {
    (c.fraction.Some? ==> |c.fraction.value| >= 1 && AllDigits(c.fraction.value)) && ZoneValid(c)
  }

  predicate SecondValid(c: Captures)
  {
    (c.second.Some? ==> IsSixtieth(c.second.value)) && FractionValid(c)
  }

  predicate MinuteValid(c: Captures)
  {
    c.minute.Some? && IsSixtieth(c.minute.value) && SecondValid(c)
  }

  /** The time part takes part as a whole (with an hour and minutes) or not at all. */
  predicate TimeValid(c: Captures)
  {
    if c.hour.Some? then IsHour(c.hour.value) && MinuteValid(c) else TimeFields(c) == NoCaptures
  }

  predicate DayValid(c: Captures)
  {
    (c.day.Some? ==> IsDay(c.day.value)) && TimeValid(c)
  }

  predicate MonthValid(c: Captures)
  {
    (c.month.Some? ==> IsMonth(c.month.value)) && DayValid(c)
  }

  /** Captures that a match of the whole pattern can produce. */
  predicate Valid(c: Captures)
  {
    |c.year| == 4 && AllDigits(c.year) && MonthValid(c)
  }

  // ---------------------------------------------------------------------------
  // The matcher

  /** `v.match(DATE_FORMAT_PATTERN)`: the captures of the match, or `None` for `null`. */
  function MatchDate(t: string): (r: Option<Captures>)
    ensures r.Some? ==> |t| >= 4 && Valid(r.value) && r.value.year == t[..4]
  {
    if |t| >= 4 && AllDigits(t[..4]) && AfterYear(t, 4).Some? then
      Some(AfterYear(t, 4).value.(year := t[..4]))
    else None
  }

  /** `-?` after the year */
  function AfterYear(t: string, i: nat): (r: Option<Captures>)
    requires i <= |t|
    ensures r.Some? ==> r.value == MonthFields(r.value) && MonthValid(r.value)
  {
    if i < |t| && t[i] == '-' && MonthGroup(t, i + 1).Some? then MonthGroup(t, i + 1)
    else MonthGroup(t, i)
  }

  /** `(0[1-9]|1[012])?` */
  function MonthGroup(t: string, i: nat): (r: Option<Captures>)
    requires i <= |t|
    ensures r.Some? ==> r.value == MonthFields(r.value) && MonthValid(r.value)
  {
    if i + 2 <= |t| && IsMonth(t[i..i + 2]) && AfterMonth(t, i + 2).Some? then
      Some(AfterMonth(t, i + 2).value.(month := Some(t[i..i + 2])))
    else AfterMonth(t, i)
  }

  /** `-?` after the month */
  function AfterMonth(t: string, i: nat): (r: Option<Captures>)
    requires i <= |t|
    ensures r.Some? ==> r.value == DayFields(r.value) && DayValid(r.value)
  {
    if i < |t| && t[i] == '-' && DayGroup(t, i + 1).Some? then DayGroup(t, i + 1)
    else DayGroup(t, i)
  }

  /** `([123]0|[012][1-9]|31)?`: the three alternatives never match the same two characters. */
  function DayGroup(t: string, i: nat): (r: Option<Captures>)
    requires i <= |t|
    ensures r.Some? ==> r.value == DayFields(r.value) && DayValid(r.value)
  {
    if i + 2 <= |t| && IsDay(t[i..i + 2]) && TimeGroup(t, i + 2).Some? then
      Some(TimeGroup(t, i + 2).value.(day := Some(t[i..i + 2])))
    else TimeGroup(t, i)
  }

  /** `(?: ... )?$`: the optional time part, then the end of the text. */
  function TimeGroup(t: string, i: nat): (r: Option<Captures>)
    requires i <= |t|
    ensures r.Some? ==> r.value == TimeFields(r.value) && TimeValid(r.value)
  {
    if TimeSeparator(t, i).Some? then TimeSeparator(t, i) else End(t, i)
  }

  /** `[T ]?` */
  function TimeSeparator(t: string, i: nat): (r: Option<Captures>)
    requires i <= |t|
    ensures r.Some? ==> r.value == TimeFields(r.value) && r.value.hour.Some? && TimeValid(r.value)
  {
    if i < |t| && (t[i] == 'T' || t[i] == ' ') && HourGroup(t, i + 1).Some? then HourGroup(t, i + 1)
    else HourGroup(t, i)
  }

  /** `([01][0-9]|2[0-3])` */
  function HourGroup(t: string, i: nat): (r: Option<Captures>)
    requires i <= |t|
    ensures r.Some? ==> r.value == TimeFields(r.value) && r.value.hour.Some? && TimeValid(r.value)
  {
    if i + 2 <= |t| && IsHour(t[i..i + 2]) && AfterHour(t, i + 2).Some? then
      Some(AfterHour(t, i + 2).value.(hour := Some(t[i..i + 2])))
    else None
  }

  /** `:?` after the hour */
  function AfterHour(t: string, i: nat): (r: Option<Captures>)
    requires i <= |t|
    ensures r.Some? ==> r.value == MinuteFields(r.value) && MinuteValid(r.value)
  {
    if i < |t| && t[i] == ':' && MinuteGroup(t, i + 1).Some? then MinuteGroup(t, i + 1)
    else MinuteGroup(t, i)
  }

  /** `([0-5][0-9])` */
  function MinuteGroup(t: string, i: nat): (r: Option<Captures>)
    requires i <= |t|
    ensures r.Some? ==> r.value == MinuteFields(r.value) && MinuteValid(r.value)
  {
    if i + 2 <= |t| && IsSixtieth(t[i..i + 2]) && AfterMinute(t, i + 2).Some? then
      Some(AfterMinute(t, i + 2).value.(minute := Some(t[i..i + 2])))
    else None
  }

  /** `:?` after the minutes */
  function AfterMinute(t: string, i: nat): (r: Option<Captures>)
    requires i <= |t|
    ensures r.Some? ==> r.value == SecondFields(r.value) && SecondValid(r.value)
  {
    if i < |t| && t[i] == ':' && SecondGroup(t, i + 1).Some? then SecondGroup(t, i + 1)
    else SecondGroup(t, i)
  }

  /** `([0-5][0-9])?` */
  function SecondGroup(t: string, i: nat): (r: Option<Captures>)
    requires i <= |t|
    ensures r.Some? ==> r.value == SecondFields(r.value) && SecondValid(r.value)
  {
    if i + 2 <= |t| && IsSixtieth(t[i..i + 2]) && FractionGroup(t, i + 2).Some? then
      Some(FractionGroup(t, i + 2).value.(second := Some(t[i..i + 2])))
    else FractionGroup(t, i)
  }

  /** `(?:\.(\d+))?`: after the point, the greedy `\d+` tries the longest run of digits first. */
  function FractionGroup(t: string, i: nat): (r: Option<Captures>)
    requires i <= |t|
    ensures r.Some? ==> r.value == FractionFields(r.value) && FractionValid(r.value)
  {
    if i < |t| && t[i] == '.' && FractionDigits(t, i + 1, |DigitPrefix(t[i + 1..])|).Some? then
      FractionDigits(t, i + 1, |DigitPrefix(t[i + 1..])|)
    else ZoneGroup(t, i)
  }

  /** `\d+` giving back one digit at a time: `k` digits from `start`, then fewer. */
  function FractionDigits(t: string, start: nat, k: nat): (r: Option<Captures>)
    requires start + k <= |t| && AllDigits(t[start..start + k])
    ensures r.Some? ==> r.value == FractionFields(r.value) && FractionValid(r.value)
  {
    if k == 0 then None
    else if ZoneGroup(t, start + k).Some? then
      Some(ZoneGroup(t, start + k).value.(fraction := Some(t[start..start + k])))
    else
      assert t[start..start + k - 1] == t[start..start + k][..k - 1];
      FractionDigits(t, start, k - 1)
  }

  /** `(?:(Z)|(?:([+-]) ... ))?` */
  function ZoneGroup(t: string, i: nat): (r: Option<Captures>)
    requires i <= |t|
    ensures r.Some? ==> r.value == ZoneFields(r.value) && ZoneValid(r.value)
  {
    if i < |t| && t[i] == 'Z' && End(t, i + 1).Some? then
      Some(End(t, i + 1).value.(utc := true))
    else if i < |t| && (t[i] == '+' || t[i] == '-') && OffsetHourGroup(t, i + 1).Some? then
      Some(OffsetHourGroup(t, i + 1).value.(sign := Some(t[i..i + 1])))
    else End(t, i)
  }

  /**
   * `([01]?[0-9]|2[0-3])`: first `[01][0-9]`, then a single digit (the greedy
   * `[01]?` given back), then `2[0-3]`.
   */
  function OffsetHourGroup(t: string, i: nat): (r: Option<Captures>)
    requires i <= |t|
    ensures r.Some? ==> r.value == OffsetFields(r.value) && r.value.offsetHour.Some?
    ensures r.Some? ==> IsOffsetHour(r.value.offsetHour.value) && OffsetMinuteValid(r.value)
  {
    if i + 2 <= |t| && '0' <= t[i] <= '1' && IsDigit(t[i + 1]) && AfterOffsetHour(t, i + 2).Some? then
      Some(AfterOffsetHour(t, i + 2).value.(offsetHour := Some(t[i..i + 2])))
    else if i + 1 <= |t| && IsDigit(t[i]) && AfterOffsetHour(t, i + 1).Some? then
      Some(AfterOffsetHour(t, i + 1).value.(offsetHour := Some(t[i..i + 1])))
    else if i + 2 <= |t| && t[i] == '2' && '0' <= t[i + 1] <= '3' && AfterOffsetHour(t, i + 2).Some? then
      Some(AfterOffsetHour(t, i + 2).value.(offsetHour := Some(t[i..i + 2])))
    else None
  }

  /** `:?` after the offset hour */
  function AfterOffsetHour(t: string, i: nat): (r: Option<Captures>)
    requires i <= |t|
    ensures r.Some? ==> r.value == NoCaptures.(offsetMinute := r.value.offsetMinute) && OffsetMinuteValid(r.value)
  {
    if i < |t| && t[i] == ':' && OffsetMinuteGroup(t, i + 1).Some? then OffsetMinuteGroup(t, i + 1)
    else OffsetMinuteGroup(t, i)
  }

  /** `([0-5][0-9])?` */
  function OffsetMinuteGroup(t: string, i: nat): (r: Option<Captures>)
    requires i <= |t|
    ensures r.Some? ==> r.value == NoCaptures.(offsetMinute := r.value.offsetMinute) && OffsetMinuteValid(r.value)
  {
    if i + 2 <= |t| && IsSixtieth(t[i..i + 2]) && End(t, i + 2).Some? then
      Some(End(t, i + 2).value.(offsetMinute := Some(t[i..i + 2])))
    else End(t, i)
  }

  /** `$` */
  function End(t: string, i: nat): (r: Option<Captures>)
    requires i <= |t|
    ensures r.Some? <==> i == |t|
    ensures r.Some? ==> r.value == NoCaptures
  {
    if i == |t| then Some(NoCaptures) else None
  }

  // ---------------------------------------------------------------------------
  // Writing captures back as text the pattern matches: for each element, the
  // text that the captures say it and the elements after it read

  function OffsetMinuteText(c: Captures): string
  {
    if c.offsetMinute.Some? then ":" + c.offsetMinute.value else ""
  }

  function OffsetHourText(c: Captures): string
  {
    c.offsetHour.OrElse("") + OffsetMinuteText(c)
  }

  function ZoneText(c: Captures): string
  {
    if c.utc then "Z" else if c.sign.Some? then c.sign.value + OffsetHourText(c) else ""
  }

  function FractionText(c: Captures): string
  {
    if c.fraction.Some? then "." + (c.fraction.value + ZoneText(c)) else ZoneText(c)
  }

  function SecondGroupText(c: Captures): string
  {
    if c.second.Some? then c.second.value + FractionText(c) else FractionText(c)
  }

  function SecondText(c: Captures): string
  {
    if c.second.Some? then ":" + SecondGroupText(c) else SecondGroupText(c)
  }

  function MinuteText(c: Captures): string
  {
    c.minute.OrElse("") + SecondText(c)
  }

  function HourText(c: Captures): string
  {
    c.hour.OrElse("") + (":" + MinuteText(c))
  }

  function TimeText(c: Captures): string
  {
    if c.hour.Some? then "T" + HourText(c) else ""
  }

  function DayGroupText(c: Captures): string
  {
    if c.day.Some? then c.day.value + TimeText(c) else TimeText(c)
  }

  function DayText(c: Captures): string
  {
    if c.day.Some? then "-" + DayGroupText(c) else DayGroupText(c)
  }

  function MonthGroupText(c: Captures): string
  {
    if c.month.Some? then c.month.value + DayText(c) else DayText(c)
  }

  function AfterYearText(c: Captures): string
  {
    if c.month.Some? || c.day.Some? then "-" + MonthGroupText(c) else MonthGroupText(c)
  }

  /**
   * The captures as text with every separator written out: `YYYY-MM-DDTHH:mm:ss.f`
   * and the zone. A day without a month is written `YYYY--DD`, which keeps
   * the day from being read as a month.
   */
  function Render(c: Captures): string
  {
    c.year + AfterYearText(c)
  }
}

/** The matcher reads back what `Render` writes, so a match determines its captures. */
module DatePatternLemmas {
  import opened Wrappers
  import opened JsNumbers
  import opened DatePattern

  lemma Split(t: string, i: nat, a: string, b: string)
    requires i <= |t| && t[i..] == a + b
    ensures i + |a| <= |t| && t[i..i + |a|] == a && t[i + |a|..] == b
  {
    assert t[i..i + |a|] == t[i..][..|a|];
    assert t[i + |a|..] == t[i..][|a|..];
  }

  lemma ZoneTextStart(c: Captures)
    requires ZoneValid(c)
    ensures ZoneText(c) == [] || ZoneText(c)[0] in {'Z', '+', '-'}
  {
  }

  lemma FractionTextStart(c: Captures)
    requires FractionValid(c)
    ensures FractionText(c) == [] || FractionText(c)[0] in {'.', 'Z', '+', '-'}
  {
    ZoneTextStart(c);
  }

  lemma OffsetMinuteReads(t: string, i: nat, c: Captures)
    requires i <= |t| && OffsetMinuteValid(c) && t[i..] == c.offsetMinute.OrElse("")
    ensures OffsetMinuteGroup(t, i) == Some(NoCaptures.(offsetMinute := c.offsetMinute))
  {
    Split(t, i, c.offsetMinute.OrElse(""), "");
  }

  lemma AfterOffsetHourReads(t: string, i: nat, c: Captures)
    requires i <= |t| && OffsetMinuteValid(c) && t[i..] == OffsetMinuteText(c)
    ensures AfterOffsetHour(t, i) == Some(NoCaptures.(offsetMinute := c.offsetMinute))
  {
    if c.offsetMinute.Some? {
      Split(t, i, ":", c.offsetMinute.value);
      OffsetMinuteReads(t, i + 1, c);
    } else {
      OffsetMinuteReads(t, i, c);
    }
  }

  /** After a lone digit that starts `2[0-3]`, the rest of the offset cannot match. */
  lemma LoneDigitFails(t: string, i: nat, d: char, c: Captures)
    requires i <= |t| && IsDigit(d) && t[i..] == [d] + OffsetMinuteText(c)
    ensures AfterOffsetHour(t, i) == None
  {
    Split(t, i, [d], OffsetMinuteText(c));
    if i + 2 <= |t| {
      assert t[i + 1] == ':';
    }
  }

  lemma OffsetHourReads(t: string, i: nat, c: Captures)
    requires i <= |t| && c.offsetHour.Some? && IsOffsetHour(c.offsetHour.value) && OffsetMinuteValid(c)
    requires t[i..] == OffsetHourText(c)
    ensures OffsetHourGroup(t, i) == Some(OffsetFields(c))
  {
    var h := c.offsetHour.value;
    Split(t, i, h, OffsetMinuteText(c));
    AfterOffsetHourReads(t, i + |h|, c);
    assert t[i] == h[0];
    if |h| == 1 {
      if i + 2 <= |t| {
        assert t[i + 1] == ':';
      }
    } else if h[0] == '2' {
      assert t[i + 1] == h[1];
      LoneDigitFails(t, i + 1, h[1], c);
    }
  }

  lemma ZoneReads(t: string, i: nat, c: Captures)
    requires i <= |t| && ZoneValid(c) && t[i..] == ZoneText(c)
    ensures ZoneGroup(t, i) == Some(ZoneFields(c))
  {
    if c.utc {
      Split(t, i, "Z", "");
    } else if c.sign.Some? {
      Split(t, i, c.sign.value, OffsetHourText(c));
      OffsetHourReads(t, i + 1, c);
    }
  }

  lemma FractionRun(t: string, i: nat, c: Captures)
    requires i <= |t| && FractionValid(c) && c.fraction.Some?
    requires t[i..] == c.fraction.value + ZoneText(c)
    ensures i + |c.fraction.value| <= |t| && t[i..i + |c.fraction.value|] == c.fraction.value
    ensures ZoneGroup(t, i + |c.fraction.value|) == Some(ZoneFields(c))
    ensures DigitPrefix(t[i..]) == c.fraction.value
  {
    ZoneTextStart(c);
    DigitPrefixOf(c.fraction.value, ZoneText(c));
    Split(t, i, c.fraction.value, ZoneText(c));
    ZoneReads(t, i + |c.fraction.value|, c);
  }

  lemma FractionDigitsRead(t: string, i: nat, f: string, c: Captures)
    requires i + |f| <= |t| && t[i..i + |f|] == f && |f| >= 1 && AllDigits(f)
    requires ZoneGroup(t, i + |f|) == Some(ZoneFields(c))
    ensures FractionDigits(t, i, |f|) == Some(ZoneFields(c).(fraction := Some(f)))
  {
  }

  lemma FractionPresentReads(t: string, i: nat, c: Captures)
    requires i <= |t| && FractionValid(c) && c.fraction.Some? && t[i..] == "." + (c.fraction.value + ZoneText(c))
    ensures FractionGroup(t, i) == Some(FractionFields(c))
  {
    var f := c.fraction.value;
    Split(t, i, ".", f + ZoneText(c));
    FractionRun(t, i + 1, c);
    FractionDigitsRead(t, i + 1, f, c);
  }

  lemma FractionReads(t: string, i: nat, c: Captures)
    requires i <= |t| && FractionValid(c) && t[i..] == FractionText(c)
    ensures FractionGroup(t, i) == Some(FractionFields(c))
  {
    if c.fraction.Some? {
      FractionPresentReads(t, i, c);
    } else {
      ZoneTextStart(c);
      ZoneReads(t, i, c);
    }
  }

  lemma SecondReads(t: string, i: nat, c: Captures)
    requires i <= |t| && SecondValid(c) && t[i..] == SecondGroupText(c)
    ensures SecondGroup(t, i) == Some(SecondFields(c))
  {
    if c.second.Some? {
      Split(t, i, c.second.value, FractionText(c));
      FractionReads(t, i + 2, c);
    } else {
      FractionTextStart(c);
      FractionReads(t, i, c);
    }
  }

  lemma AfterMinuteReads(t: string, i: nat, c: Captures)
    requires i <= |t| && SecondValid(c) && t[i..] == SecondText(c)
    ensures AfterMinute(t, i) == Some(SecondFields(c))
  {
    if c.second.Some? {
      Split(t, i, ":", SecondGroupText(c));
      SecondReads(t, i + 1, c);
    } else {
      FractionTextStart(c);
      SecondReads(t, i, c);
    }
  }

  lemma MinuteReads(t: string, i: nat, c: Captures)
    requires i <= |t| && MinuteValid(c) && t[i..] == MinuteText(c)
    ensures MinuteGroup(t, i) == Some(MinuteFields(c))
  {
    Split(t, i, c.minute.value, SecondText(c));
    AfterMinuteReads(t, i + 2, c);
  }

  lemma AfterHourReads(t: string, i: nat, c: Captures)
    requires i <= |t| && MinuteValid(c) && t[i..] == ":" + MinuteText(c)
    ensures AfterHour(t, i) == Some(MinuteFields(c))
  {
    Split(t, i, ":", MinuteText(c));
    MinuteReads(t, i + 1, c);
  }

  lemma HourReads(t: string, i: nat, c: Captures)
    requires i <= |t| && c.hour.Some? && IsHour(c.hour.value) && MinuteValid(c)
    requires t[i..] == HourText(c)
    ensures HourGroup(t, i) == Some(TimeFields(c))
  {
    Split(t, i, c.hour.value, ":" + MinuteText(c));
    AfterHourReads(t, i + 2, c);
  }

  lemma TimeReads(t: string, i: nat, c: Captures)
    requires i <= |t| && TimeValid(c) && t[i..] == TimeText(c)
    ensures TimeGroup(t, i) == Some(TimeFields(c))
  {
    if c.hour.Some? {
      Split(t, i, "T", HourText(c));
      HourReads(t, i + 1, c);
    } else {
      assert HourGroup(t, i) == None;
    }
  }

  lemma DayReads(t: string, i: nat, c: Captures)
    requires i <= |t| && DayValid(c) && t[i..] == DayGroupText(c)
    ensures DayGroup(t, i) == Some(DayFields(c))
  {
    if c.day.Some? {
      Split(t, i, c.day.value, TimeText(c));
      TimeReads(t, i + 2, c);
    } else {
      TimeReads(t, i, c);
    }
  }

  lemma AfterMonthReads(t: string, i: nat, c: Captures)
    requires i <= |t| && DayValid(c) && t[i..] == DayText(c)
    ensures AfterMonth(t, i) == Some(DayFields(c))
  {
    if c.day.Some? {
      Split(t, i, "-", DayGroupText(c));
      DayReads(t, i + 1, c);
    } else {
      DayReads(t, i, c);
    }
  }

  lemma MonthReads(t: string, i: nat, c: Captures)
    requires i <= |t| && MonthValid(c) && t[i..] == MonthGroupText(c)
    ensures MonthGroup(t, i) == Some(MonthFields(c))
  {
    if c.month.Some? {
      Split(t, i, c.month.value, DayText(c));
      AfterMonthReads(t, i + 2, c);
    } else {
      AfterMonthReads(t, i, c);
    }
  }

  lemma AfterYearReads(t: string, i: nat, c: Captures)
    requires i <= |t| && MonthValid(c) && t[i..] == AfterYearText(c)
    ensures AfterYear(t, i) == Some(MonthFields(c))
  {
    if c.month.Some? || c.day.Some? {
      Split(t, i, "-", MonthGroupText(c));
      MonthReads(t, i + 1, c);
    } else {
      MonthReads(t, i, c);
    }
  }

  /** Round trip: valid captures, written out, are matched with exactly those captures. */
  lemma MatchRender(c: Captures)
    requires Valid(c)
    ensures MatchDate(Render(c)) == Some(c)
  {
    var t := Render(c);
    Split(t, 0, c.year, AfterYearText(c));
    assert t[..4] == c.year;
    AfterYearReads(t, 4, c);
  }

  /**
   * Whatever separators a matched text used, writing its captures out with all
   * separators gives a text that the pattern matches with the same captures.
   */
  lemma MatchNormalises(t: string)
    requires MatchDate(t).Some?
    ensures MatchDate(Render(MatchDate(t).value)) == MatchDate(t)
  {
    MatchRender(MatchDate(t).value);
  }

  /** Without separators, `20111123` is read as year, month and day. */
  lemma CompactDate()
    ensures MatchDate("20111123") == Some(NoCaptures.(year := "2011", month := Some("11"), day := Some("23")))
  {
    var t := "20111123";
    assert HourGroup(t, 8) == None;
    assert TimeGroup(t, 8) == Some(NoCaptures);
    assert t[6..8] == "23" && IsDay(t[6..8]);
    assert DayGroup(t, 6) == Some(NoCaptures.(day := Some("23")));
    assert AfterMonth(t, 6) == DayGroup(t, 6);
    assert t[4..6] == "11" && IsMonth(t[4..6]);
    assert MonthGroup(t, 4) == Some(NoCaptures.(month := Some("11"), day := Some("23")));
    assert AfterYear(t, 4) == MonthGroup(t, 4);
    assert t[..4] == "2011";
  }

  /** In `2011-11-23Z`, no reading of the text after the year's dash reaches the end. */
  lemma ZoneWithoutTimeAfterDash()
    ensures MonthGroup("2011-11-23Z", 5) == None
  {
    var t := "2011-11-23Z";
    assert TimeGroup(t, 10) == None;
    assert t[8..10] == "23";
    assert AfterHour(t, 10) == None;
    assert TimeGroup(t, 8) == None;
    assert DayGroup(t, 8) == None;
    assert t[7..9] == "-2";
    assert TimeGroup(t, 7) == None;
    assert AfterMonth(t, 7) == None;
    assert t[5..7] == "11";
    assert AfterHour(t, 7) == None;
    assert TimeGroup(t, 5) == None;
    assert DayGroup(t, 5) == None;
  }

  /** A zone belongs to the time: a date followed directly by `Z` does not match. */
  lemma ZoneWithoutTime()
    ensures MatchDate("2011-11-23Z") == None
  {
    var t := "2011-11-23Z";
    ZoneWithoutTimeAfterDash();
    assert t[5..7] == "11";
    assert t[7..9] == "-2";
    assert TimeGroup(t, 7) == None;
    assert t[8..10] == "23";
    assert AfterHour(t, 10) == None;
    assert TimeGroup(t, 8) == None;
    assert TimeGroup(t, 10) == None;
    assert DayGroup(t, 8) == None;
    assert AfterMonth(t, 7) == None;
    assert AfterHour(t, 7) == None;
    assert TimeGroup(t, 5) == None;
    assert DayGroup(t, 5) == None;
    assert t[4..6] == "-1";
    assert TimeGroup(t, 4) == None;
    assert AfterMonth(t, 4) == None;
    assert AfterYear(t, 4) == None;
  }
}
