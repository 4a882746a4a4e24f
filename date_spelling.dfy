/**
 * Every text `DATE_FORMAT_PATTERN` accepts, described without the matcher: the
 * captures, written one after the other, with each optional separator of the
 * pattern (`-?`, `[T ]?`, `:?`) either written or left out. A text matches
 * exactly when it is spelled this way from captures that satisfy the groups.
 */
module DateSpelling {
  import opened Wrappers
  import opened JsNumbers
  import opened DatePattern
  import opened DatePatternLemmas

  /** Which of the pattern's optional separators a text writes. */
  datatype Separators = Separators(
    yearDash: bool,      // `-?` after the year
    monthDash: bool,     // `-?` after the month
    timeMark: string,    // `[T ]?` before the hour
    hourColon: bool,     // `:?` after the hour
    minuteColon: bool,   // `:?` after the minutes
    offsetColon: bool)   // `:?` after the offset hour

  predicate SeparatorsValid(p: Separators)
  {
    p.timeMark == "" || p.timeMark == "T" || p.timeMark == " "
  }

  function Opt(written: bool, x: string): string
  {
    if written then x else ""
  }

  // ---------------------------------------------------------------------------
  // The text from each element of the pattern to its end. Each function takes
  // the separators that occur from its element on.

  function AfterOffsetHourSpell(c: Captures, oc: bool): string
  {
    Opt(oc, ":") + c.offsetMinute.OrElse("")
  }

  function OffsetHourSpell(c: Captures, oc: bool): string
  {
    c.offsetHour.OrElse("") + AfterOffsetHourSpell(c, oc)
  }

  function ZoneSpell(c: Captures, oc: bool): string
  {
    if c.utc then "Z" else if c.sign.Some? then c.sign.value + OffsetHourSpell(c, oc) else ""
  }

  function FractionSpell(c: Captures, oc: bool): string
  {
    if c.fraction.Some? then "." + (c.fraction.value + ZoneSpell(c, oc)) else ZoneSpell(c, oc)
  }

  function SecondSpell(c: Captures, oc: bool): string
  {
    c.second.OrElse("") + FractionSpell(c, oc)
  }

  function AfterMinuteSpell(c: Captures, mc: bool, oc: bool): string
  {
    Opt(mc, ":") + SecondSpell(c, oc)
  }

  function MinuteSpell(c: Captures, mc: bool, oc: bool): string
  {
    c.minute.OrElse("") + AfterMinuteSpell(c, mc, oc)
  }

  function AfterHourSpell(c: Captures, hc: bool, mc: bool, oc: bool): string
  {
    Opt(hc, ":") + MinuteSpell(c, mc, oc)
  }

  function HourSpell(c: Captures, hc: bool, mc: bool, oc: bool): string
  {
    c.hour.OrElse("") + AfterHourSpell(c, hc, mc, oc)
  }

  function TimeSpell(c: Captures, tm: string, hc: bool, mc: bool, oc: bool): string
  {
    if c.hour.Some? then tm + HourSpell(c, hc, mc, oc) else ""
  }

  function DaySpell(c: Captures, tm: string, hc: bool, mc: bool, oc: bool): string
  {
    c.day.OrElse("") + TimeSpell(c, tm, hc, mc, oc)
  }

  function AfterMonthSpell(c: Captures, md: bool, tm: string, hc: bool, mc: bool, oc: bool): string
  {
    Opt(md, "-") + DaySpell(c, tm, hc, mc, oc)
  }

  function MonthSpell(c: Captures, md: bool, tm: string, hc: bool, mc: bool, oc: bool): string
  {
    c.month.OrElse("") + AfterMonthSpell(c, md, tm, hc, mc, oc)
  }

  function AfterYearSpell(c: Captures, yd: bool, md: bool, tm: string, hc: bool, mc: bool, oc: bool): string
  {
    Opt(yd, "-") + MonthSpell(c, md, tm, hc, mc, oc)
  }

  /** The captures written out with the separators `p`. */
  function Spell(c: Captures, p: Separators): string
  {
    c.year + AfterYearSpell(c, p.yearDash, p.monthDash, p.timeMark, p.hourColon, p.minuteColon, p.offsetColon)
  }

  lemma Join(t: string, i: nat, j: nat)
    requires i <= j <= |t|
    ensures t[i..] == t[i..j] + t[j..]
  {
  }

  lemma SeparatorThen(t: string, i: nat, sep: char, rest: string)
    requires i < |t| && t[i] == sep && t[i + 1..] == rest
    ensures t[i..] == [sep] + rest
  {
    Join(t, i, i + 1);
  }

  // ---------------------------------------------------------------------------
  // A match is a spelling of its captures: each lemma reads the separators
  // that the matcher took from the text, for one element and those after it.

  lemma OffsetMinuteSpelled(t: string, i: nat, c: Captures)
    requires i <= |t| && OffsetMinuteGroup(t, i) == Some(NoCaptures.(offsetMinute := c.offsetMinute))
    ensures t[i..] == c.offsetMinute.OrElse("")
  {
    if i + 2 <= |t| && IsSixtieth(t[i..i + 2]) && End(t, i + 2).Some? {
      assert c.offsetMinute == Some(t[i..i + 2]);
    } else {
      assert End(t, i).Some?;
    }
  }

  lemma AfterOffsetHourSpelled(t: string, i: nat, c: Captures) returns (oc: bool)
    requires i <= |t| && AfterOffsetHour(t, i) == Some(NoCaptures.(offsetMinute := c.offsetMinute))
    ensures t[i..] == AfterOffsetHourSpell(c, oc)
  {
    if i < |t| && t[i] == ':' && OffsetMinuteGroup(t, i + 1).Some? {
      OffsetMinuteSpelled(t, i + 1, c);
      Join(t, i, i + 1);
      oc := true;
    } else {
      OffsetMinuteSpelled(t, i, c);
      oc := false;
    }
  }

  /** The offset hour after `k` characters, followed by the rest of the offset. */
  lemma OffsetHourTail(t: string, i: nat, k: nat, c: Captures) returns (oc: bool)
    requires i + k <= |t| && AfterOffsetHour(t, i + k).Some?
    requires AfterOffsetHour(t, i + k).value.(offsetHour := Some(t[i..i + k])) == OffsetFields(c)
    ensures t[i..] == OffsetHourSpell(c, oc)
  {
    var x := AfterOffsetHour(t, i + k).value;
    assert x == NoCaptures.(offsetMinute := c.offsetMinute);
    oc := AfterOffsetHourSpelled(t, i + k, c);
    Join(t, i, i + k);
  }

  lemma OffsetHourSpelled(t: string, i: nat, c: Captures) returns (oc: bool)
    requires i <= |t| && OffsetHourGroup(t, i) == Some(OffsetFields(c))
    ensures t[i..] == OffsetHourSpell(c, oc)
  {
    if i + 2 <= |t| && '0' <= t[i] <= '1' && IsDigit(t[i + 1]) && AfterOffsetHour(t, i + 2).Some? {
      oc := OffsetHourTail(t, i, 2, c);
    } else if i + 1 <= |t| && IsDigit(t[i]) && AfterOffsetHour(t, i + 1).Some? {
      oc := OffsetHourTail(t, i, 1, c);
    } else {
      oc := OffsetHourTail(t, i, 2, c);
    }
  }

  lemma ZoneSpelled(t: string, i: nat, c: Captures) returns (oc: bool)
    requires i <= |t| && ZoneGroup(t, i) == Some(ZoneFields(c))
    ensures t[i..] == ZoneSpell(c, oc)
  {
    oc := false;
    if i < |t| && t[i] == 'Z' && End(t, i + 1).Some? {
      assert c.utc;
    } else if i < |t| && (t[i] == '+' || t[i] == '-') && OffsetHourGroup(t, i + 1).Some? {
      var x := OffsetHourGroup(t, i + 1).value;
      assert x == OffsetFields(c) && !c.utc && c.sign == Some(t[i..i + 1]);
      oc := OffsetHourSpelled(t, i + 1, c);
      Join(t, i, i + 1);
    } else {
      assert End(t, i).Some? && !c.utc && c.sign.None?;
    }
  }

  lemma {:induction false} FractionDigitsSpelled(t: string, start: nat, k: nat, c: Captures) returns (oc: bool)
    requires start + k <= |t| && AllDigits(t[start..start + k])
    requires FractionDigits(t, start, k) == Some(FractionFields(c))
    ensures c.fraction.Some? && t[start..] == c.fraction.value + ZoneSpell(c, oc)
    decreases k
  {
    if ZoneGroup(t, start + k).Some? {
      var x := ZoneGroup(t, start + k).value;
      assert x == ZoneFields(c) && c.fraction == Some(t[start..start + k]);
      oc := ZoneSpelled(t, start + k, c);
      Join(t, start, start + k);
    } else {
      assert t[start..start + k - 1] == t[start..start + k][..k - 1];
      oc := FractionDigitsSpelled(t, start, k - 1, c);
    }
  }

  lemma FractionSpelled(t: string, i: nat, c: Captures) returns (oc: bool)
    requires i <= |t| && FractionGroup(t, i) == Some(FractionFields(c))
    ensures t[i..] == FractionSpell(c, oc)
  {
    if i < |t| && t[i] == '.' && FractionDigits(t, i + 1, |DigitPrefix(t[i + 1..])|).Some? {
      oc := FractionDigitsSpelled(t, i + 1, |DigitPrefix(t[i + 1..])|, c);
      Join(t, i, i + 1);
    } else {
      assert ZoneGroup(t, i) == Some(ZoneFields(c)) && c.fraction.None?;
      oc := ZoneSpelled(t, i, c);
    }
  }

  lemma SecondSpelled(t: string, i: nat, c: Captures) returns (oc: bool)
    requires i <= |t| && SecondGroup(t, i) == Some(SecondFields(c))
    ensures t[i..] == SecondSpell(c, oc)
  {
    if i + 2 <= |t| && IsSixtieth(t[i..i + 2]) && FractionGroup(t, i + 2).Some? {
      var x := FractionGroup(t, i + 2).value;
      assert x == FractionFields(c) && c.second == Some(t[i..i + 2]);
      oc := FractionSpelled(t, i + 2, c);
      Join(t, i, i + 2);
    } else {
      assert FractionGroup(t, i) == Some(FractionFields(c)) && c.second.None?;
      oc := FractionSpelled(t, i, c);
    }
  }

  lemma AfterMinuteSpelled(t: string, i: nat, c: Captures) returns (mc: bool, oc: bool)
    requires i <= |t| && AfterMinute(t, i) == Some(SecondFields(c))
    ensures t[i..] == AfterMinuteSpell(c, mc, oc)
  {
    if i < |t| && t[i] == ':' && SecondGroup(t, i + 1).Some? {
      assert SecondGroup(t, i + 1) == Some(SecondFields(c));
      oc := SecondSpelled(t, i + 1, c);
      SeparatorThen(t, i, ':', SecondSpell(c, oc));
      mc := true;
    } else {
      assert SecondGroup(t, i) == Some(SecondFields(c));
      oc := SecondSpelled(t, i, c);
      mc := false;
      assert AfterMinuteSpell(c, mc, oc) == SecondSpell(c, oc);
    }
  }

  lemma MinuteSpelled(t: string, i: nat, c: Captures) returns (mc: bool, oc: bool)
    requires i <= |t| && MinuteGroup(t, i) == Some(MinuteFields(c))
    ensures t[i..] == MinuteSpell(c, mc, oc)
  {
    var x := AfterMinute(t, i + 2).value;
    assert x == SecondFields(c) && c.minute == Some(t[i..i + 2]);
    mc, oc := AfterMinuteSpelled(t, i + 2, c);
    Join(t, i, i + 2);
  }

  lemma AfterHourSpelled(t: string, i: nat, c: Captures) returns (hc: bool, mc: bool, oc: bool)
    requires i <= |t| && AfterHour(t, i) == Some(MinuteFields(c))
    ensures t[i..] == AfterHourSpell(c, hc, mc, oc)
  {
    if i < |t| && t[i] == ':' && MinuteGroup(t, i + 1).Some? {
      mc, oc := MinuteSpelled(t, i + 1, c);
      Join(t, i, i + 1);
      hc := true;
    } else {
      mc, oc := MinuteSpelled(t, i, c);
      hc := false;
    }
  }

  lemma HourSpelled(t: string, i: nat, c: Captures) returns (hc: bool, mc: bool, oc: bool)
    requires i <= |t| && HourGroup(t, i) == Some(TimeFields(c))
    ensures c.hour.Some? && t[i..] == HourSpell(c, hc, mc, oc)
  {
    var x := AfterHour(t, i + 2).value;
    assert x == MinuteFields(c) && c.hour == Some(t[i..i + 2]);
    hc, mc, oc := AfterHourSpelled(t, i + 2, c);
    Join(t, i, i + 2);
  }

  lemma TimeSpelled(t: string, i: nat, c: Captures) returns (tm: string, hc: bool, mc: bool, oc: bool)
    requires i <= |t| && TimeGroup(t, i) == Some(TimeFields(c))
    ensures tm == "" || tm == "T" || tm == " "
    ensures t[i..] == TimeSpell(c, tm, hc, mc, oc)
  {
    if TimeSeparator(t, i).Some? {
      if i < |t| && (t[i] == 'T' || t[i] == ' ') && HourGroup(t, i + 1).Some? {
        hc, mc, oc := HourSpelled(t, i + 1, c);
        Join(t, i, i + 1);
        tm := t[i..i + 1];
      } else {
        hc, mc, oc := HourSpelled(t, i, c);
        tm := "";
      }
    } else {
      assert End(t, i).Some? && c.hour.None?;
      tm, hc, mc, oc := "", false, false, false;
    }
  }

  lemma DaySpelled(t: string, i: nat, c: Captures) returns (tm: string, hc: bool, mc: bool, oc: bool)
    requires i <= |t| && DayGroup(t, i) == Some(DayFields(c))
    ensures tm == "" || tm == "T" || tm == " "
    ensures t[i..] == DaySpell(c, tm, hc, mc, oc)
  {
    if i + 2 <= |t| && IsDay(t[i..i + 2]) && TimeGroup(t, i + 2).Some? {
      var x := TimeGroup(t, i + 2).value;
      assert x == TimeFields(c) && c.day == Some(t[i..i + 2]);
      tm, hc, mc, oc := TimeSpelled(t, i + 2, c);
      Join(t, i, i + 2);
    } else {
      assert TimeGroup(t, i) == Some(TimeFields(c)) && c.day.None?;
      tm, hc, mc, oc := TimeSpelled(t, i, c);
    }
  }

  lemma AfterMonthSpelled(t: string, i: nat, c: Captures) returns (md: bool, tm: string, hc: bool, mc: bool, oc: bool)
    requires i <= |t| && AfterMonth(t, i) == Some(DayFields(c))
    ensures tm == "" || tm == "T" || tm == " "
    ensures t[i..] == AfterMonthSpell(c, md, tm, hc, mc, oc)
  {
    if i < |t| && t[i] == '-' && DayGroup(t, i + 1).Some? {
      assert DayGroup(t, i + 1) == Some(DayFields(c));
      tm, hc, mc, oc := DaySpelled(t, i + 1, c);
      SeparatorThen(t, i, '-', DaySpell(c, tm, hc, mc, oc));
      md := true;
    } else {
      assert DayGroup(t, i) == Some(DayFields(c));
      tm, hc, mc, oc := DaySpelled(t, i, c);
      md := false;
      assert AfterMonthSpell(c, md, tm, hc, mc, oc) == DaySpell(c, tm, hc, mc, oc);
    }
  }

  lemma MonthSpelled(t: string, i: nat, c: Captures) returns (md: bool, tm: string, hc: bool, mc: bool, oc: bool)
    requires i <= |t| && MonthGroup(t, i) == Some(MonthFields(c))
    ensures tm == "" || tm == "T" || tm == " "
    ensures t[i..] == MonthSpell(c, md, tm, hc, mc, oc)
  {
    if i + 2 <= |t| && IsMonth(t[i..i + 2]) && AfterMonth(t, i + 2).Some? {
      var x := AfterMonth(t, i + 2).value;
      assert x == DayFields(c) && c.month == Some(t[i..i + 2]);
      md, tm, hc, mc, oc := AfterMonthSpelled(t, i + 2, c);
      Join(t, i, i + 2);
    } else {
      assert AfterMonth(t, i) == Some(DayFields(c)) && c.month.None?;
      md, tm, hc, mc, oc := AfterMonthSpelled(t, i, c);
    }
  }

  lemma AfterYearSpelled(t: string, i: nat, c: Captures) returns (p: Separators)
    requires i <= |t| && AfterYear(t, i) == Some(MonthFields(c))
    ensures SeparatorsValid(p)
    ensures t[i..] == AfterYearSpell(c, p.yearDash, p.monthDash, p.timeMark, p.hourColon, p.minuteColon, p.offsetColon)
  {
    var yd := i < |t| && t[i] == '-' && MonthGroup(t, i + 1).Some?;
    var md, tm, hc, mc, oc;
    if yd {
      assert MonthGroup(t, i + 1) == Some(MonthFields(c));
      md, tm, hc, mc, oc := MonthSpelled(t, i + 1, c);
      SeparatorThen(t, i, '-', MonthSpell(c, md, tm, hc, mc, oc));
    } else {
      assert MonthGroup(t, i) == Some(MonthFields(c));
      md, tm, hc, mc, oc := MonthSpelled(t, i, c);
      assert AfterYearSpell(c, yd, md, tm, hc, mc, oc) == MonthSpell(c, md, tm, hc, mc, oc);
    }
    p := Separators(yd, md, tm, hc, mc, oc);
  }

  /** A matched text is its captures spelled with some choice of the optional separators. */
  lemma MatchSpelled(t: string)
    requires MatchDate(t).Some?
    ensures exists p :: SeparatorsValid(p) && t == Spell(MatchDate(t).value, p)
  {
    var c := MatchDate(t).value;
    var x := AfterYear(t, 4).value;
    assert x == MonthFields(c);
    var p := AfterYearSpelled(t, 4, c);
    Join(t, 0, 4);
    assert t == Spell(c, p);
  }

  // ---------------------------------------------------------------------------
  // Every spelling of valid captures matches: at each element the matcher
  // tries the spelled choice or one before it, and either one succeeds.

  lemma OffsetMinuteAccepts(t: string, i: nat, c: Captures, oc: bool)
    requires i <= |t| && OffsetMinuteValid(c) && t[i..] == AfterOffsetHourSpell(c, oc)
    ensures AfterOffsetHour(t, i).Some?
  {
    var m := c.offsetMinute.OrElse("");
    if oc {
      Join(t, i, i + 1);
      assert t[i + 1..] == m;
    }
    var j := if oc then i + 1 else i;
    assert t[j..] == m;
    if c.offsetMinute.Some? {
      assert t[j..j + 2] == m;
      assert OffsetMinuteGroup(t, j).Some?;
    } else {
      assert OffsetMinuteGroup(t, j).Some?;
    }
  }

  lemma OffsetHourAccepts(t: string, i: nat, c: Captures, oc: bool)
    requires i <= |t| && c.offsetHour.Some? && IsOffsetHour(c.offsetHour.value) && OffsetMinuteValid(c)
    requires t[i..] == OffsetHourSpell(c, oc)
    ensures OffsetHourGroup(t, i).Some?
  {
    var h := c.offsetHour.value;
    Join(t, i, i + |h|);
    assert t[i..i + |h|] == h;
    OffsetMinuteAccepts(t, i + |h|, c, oc);
    assert t[i] == h[0];
    if |h| == 2 {
      assert t[i + 1] == h[1];
    }
  }

  lemma ZoneAccepts(t: string, i: nat, c: Captures, oc: bool)
    requires i <= |t| && ZoneValid(c) && t[i..] == ZoneSpell(c, oc)
    ensures ZoneGroup(t, i).Some?
  {
    if c.utc {
      assert t[i..] == "Z";
    } else if c.sign.Some? {
      Join(t, i, i + 1);
      assert t[i..i + 1] == c.sign.value;
      OffsetHourAccepts(t, i + 1, c, oc);
    }
  }

  lemma ZoneSpellStart(c: Captures, oc: bool)
    requires ZoneValid(c)
    ensures ZoneSpell(c, oc) == [] || !IsDigit(ZoneSpell(c, oc)[0])
  {
  }

  /** The greedy `\d+` starts with all the fraction's digits, and that choice succeeds. */
  /** The digits of a fraction spelled before its zone are a first try `FractionDigits` accepts. */
  lemma FractionDigitsAccept(t: string, j: nat, f: string, z: string)
    requires j <= |t| && |f| >= 1 && AllDigits(f) && t[j..] == f + z
    requires ZoneGroup(t, j + |f|).Some?
    ensures j + |f| <= |t| && AllDigits(t[j..j + |f|])
    ensures FractionDigits(t, j, |f|).Some?
  {
    Split(t, j, f, z);
    FractionDigitsFirst(t, j, |f|);
  }

  /** Digits followed by text that does not start with one: the greedy run is those digits. */
  lemma PrefixIsFraction(t: string, j: nat, f: string, z: string)
    requires j <= |t| && t[j..] == f + z && AllDigits(f) && (z == [] || !IsDigit(z[0]))
    ensures DigitPrefix(t[j..]) == f
  {
    DigitPrefixOf(f, z);
  }

  /** `\d+` with all `k` digits succeeds when the zone after them does. */
  lemma FractionDigitsFirst(t: string, j: nat, k: nat)
    requires k >= 1 && j + k <= |t| && AllDigits(t[j..j + k]) && ZoneGroup(t, j + k).Some?
    ensures FractionDigits(t, j, k).Some?
  {
  }

  /** A dot, the fraction's digits and a zone the pattern accepts after them. */
  lemma FractionPresentAccepts(t: string, i: nat, f: string, z: string)
    requires i <= |t| && t[i..] == "." + (f + z)
    requires |f| >= 1 && AllDigits(f) && (z == [] || !IsDigit(z[0]))
    requires i + 1 + |f| <= |t| && ZoneGroup(t, i + 1 + |f|).Some?
    ensures FractionGroup(t, i).Some?
  {
    Split(t, i, ".", f + z);
    PrefixIsFraction(t, i + 1, f, z);
    FractionDigitsAccept(t, i + 1, f, z);
  }

  lemma FractionAccepts(t: string, i: nat, c: Captures, oc: bool)
    requires i <= |t| && FractionValid(c) && t[i..] == FractionSpell(c, oc)
    ensures FractionGroup(t, i).Some?
  {
    if c.fraction.Some? {
      var f, z := c.fraction.value, ZoneSpell(c, oc);
      Split(t, i, ".", f + z);
      Split(t, i + 1, f, z);
      ZoneSpellStart(c, oc);
      ZoneAccepts(t, i + 1 + |f|, c, oc);
      FractionPresentAccepts(t, i, f, z);
    } else {
      ZoneAccepts(t, i, c, oc);
    }
  }

  lemma SecondAccepts(t: string, i: nat, c: Captures, oc: bool)
    requires i <= |t| && SecondValid(c) && t[i..] == SecondSpell(c, oc)
    ensures SecondGroup(t, i).Some?
  {
    if c.second.Some? {
      Join(t, i, i + 2);
      assert t[i..i + 2] == c.second.value;
      FractionAccepts(t, i + 2, c, oc);
    } else {
      FractionAccepts(t, i, c, oc);
    }
  }

  lemma MinuteAccepts(t: string, i: nat, c: Captures, mc: bool, oc: bool)
    requires i <= |t| && MinuteValid(c) && t[i..] == MinuteSpell(c, mc, oc)
    ensures MinuteGroup(t, i).Some?
  {
    Split(t, i, c.minute.value, AfterMinuteSpell(c, mc, oc));
    if mc {
      Split(t, i + 2, ":", SecondSpell(c, oc));
      SecondAccepts(t, i + 3, c, oc);
    } else {
      SecondAccepts(t, i + 2, c, oc);
    }
  }

  lemma HourAccepts(t: string, i: nat, c: Captures, hc: bool, mc: bool, oc: bool)
    requires i <= |t| && c.hour.Some? && IsHour(c.hour.value) && MinuteValid(c)
    requires t[i..] == HourSpell(c, hc, mc, oc)
    ensures HourGroup(t, i).Some?
  {
    Split(t, i, c.hour.value, AfterHourSpell(c, hc, mc, oc));
    if hc {
      Split(t, i + 2, ":", MinuteSpell(c, mc, oc));
      MinuteAccepts(t, i + 3, c, mc, oc);
    } else {
      MinuteAccepts(t, i + 2, c, mc, oc);
    }
  }

  lemma TimeAccepts(t: string, i: nat, c: Captures, tm: string, hc: bool, mc: bool, oc: bool)
    requires i <= |t| && TimeValid(c) && (tm == "" || tm == "T" || tm == " ")
    requires t[i..] == TimeSpell(c, tm, hc, mc, oc)
    ensures TimeGroup(t, i).Some?
  {
    if c.hour.Some? {
      Split(t, i, tm, HourSpell(c, hc, mc, oc));
      HourAccepts(t, i + |tm|, c, hc, mc, oc);
      if tm != "" {
        assert t[i] == t[i..i + 1][0] == tm[0];
      }
    } else {
      assert |t[i..]| == 0;
    }
  }

  lemma DayGroupAccepts(t: string, j: nat, c: Captures, tm: string, hc: bool, mc: bool, oc: bool)
    requires j + |c.day.OrElse("")| <= |t| && DayValid(c) && (tm == "" || tm == "T" || tm == " ")
    requires t[j..j + |c.day.OrElse("")|] == c.day.OrElse("")
    requires t[j + |c.day.OrElse("")|..] == TimeSpell(c, tm, hc, mc, oc)
    ensures DayGroup(t, j).Some?
  {
    TimeAccepts(t, j + |c.day.OrElse("")|, c, tm, hc, mc, oc);
  }

  lemma DayAccepts(t: string, i: nat, c: Captures, md: bool, tm: string, hc: bool, mc: bool, oc: bool)
    requires i <= |t| && DayValid(c) && (tm == "" || tm == "T" || tm == " ")
    requires t[i..] == AfterMonthSpell(c, md, tm, hc, mc, oc)
    ensures AfterMonth(t, i).Some?
  {
    var rest := TimeSpell(c, tm, hc, mc, oc);
    var j := if md then i + 1 else i;
    Split(t, i, Opt(md, "-"), c.day.OrElse("") + rest);
    Split(t, j, c.day.OrElse(""), rest);
    DayGroupAccepts(t, j, c, tm, hc, mc, oc);
    if md {
      assert t[i..i + 1] == "-";
      assert t[i] == '-';
    }
  }

  lemma MonthGroupAccepts(t: string, j: nat, c: Captures, md: bool, tm: string, hc: bool, mc: bool, oc: bool)
    requires j + |c.month.OrElse("")| <= |t| && MonthValid(c) && (tm == "" || tm == "T" || tm == " ")
    requires t[j..j + |c.month.OrElse("")|] == c.month.OrElse("")
    requires t[j + |c.month.OrElse("")|..] == AfterMonthSpell(c, md, tm, hc, mc, oc)
    ensures MonthGroup(t, j).Some?
  {
    DayAccepts(t, j + |c.month.OrElse("")|, c, md, tm, hc, mc, oc);
  }

  lemma MonthAccepts(t: string, i: nat, c: Captures, p: Separators)
    requires i <= |t| && MonthValid(c) && SeparatorsValid(p)
    requires t[i..] == AfterYearSpell(c, p.yearDash, p.monthDash, p.timeMark, p.hourColon, p.minuteColon, p.offsetColon)
    ensures AfterYear(t, i).Some?
  {
    var rest := AfterMonthSpell(c, p.monthDash, p.timeMark, p.hourColon, p.minuteColon, p.offsetColon);
    var j := if p.yearDash then i + 1 else i;
    Split(t, i, Opt(p.yearDash, "-"), c.month.OrElse("") + rest);
    Split(t, j, c.month.OrElse(""), rest);
    MonthGroupAccepts(t, j, c, p.monthDash, p.timeMark, p.hourColon, p.minuteColon, p.offsetColon);
  }

  /** Valid captures, spelled with any choice of the optional separators, match. */
  lemma SpellMatches(c: Captures, p: Separators)
    requires Valid(c) && SeparatorsValid(p)
    ensures MatchDate(Spell(c, p)).Some?
  {
    var t := Spell(c, p);
    Join(t, 0, 4);
    assert t[..4] == c.year;
    MonthAccepts(t, 4, c, p);
  }

  /**
   * `v.match(DATE_FORMAT_PATTERN)` succeeds exactly on the spellings of valid
   * captures, and then its captures spell the text.
   */
  lemma MatchDateIff(t: string)
    ensures MatchDate(t).Some? <==> exists c, p :: Valid(c) && SeparatorsValid(p) && t == Spell(c, p)
    ensures MatchDate(t).Some? ==> exists p :: SeparatorsValid(p) && t == Spell(MatchDate(t).value, p)
  {
    if MatchDate(t).Some? {
      MatchSpelled(t);
    }
    if exists c, p :: Valid(c) && SeparatorsValid(p) && t == Spell(c, p) {
      var c, p :| Valid(c) && SeparatorsValid(p) && t == Spell(c, p);
      SpellMatches(c, p);
    }
  }
}
