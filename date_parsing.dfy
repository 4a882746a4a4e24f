/**
 * `parseDate(v, opts)`: match `v` against `DATE_FORMAT_PATTERN`, fill in the
 * parts the text left out, and build the text that is handed to `new Date`.
 */
module DateParsing {
  import opened Wrappers
  import opened JsNumbers
  import opened JsValues
  import opened DatePattern
  import opened DatePatternLemmas

  /** The `opts` argument; a missing object and a falsy property both read as `false`. */
  datatype DateOptions = DateOptions(dateOnly: bool, ignoreTimezone: bool)

  const NoOptions: DateOptions := DateOptions(false, false)

  /**
   * The captures as `parseDate` uses them: month and day default to `01`, the
   * time fields to `00`; `dateOnly` replaces the time by midnight and drops the
   * zone, `ignoreTimezone` drops the zone, and an offset's hour and minutes
   * default to `00`.
   */
  function Resolved(c: Captures, opts: DateOptions): (r: Captures)
    ensures r.year == c.year
    ensures r.month.Some? && r.day.Some? && r.hour.Some? && r.minute.Some? && r.second.Some?
    ensures r.month == Some(if c.month.Some? then c.month.value else "01")
    ensures r.day == Some(if c.day.Some? then c.day.value else "01")
    ensures !opts.dateOnly && c.hour.None? ==> r.hour == Some("00")
    ensures !opts.dateOnly && c.minute.None? ==> r.minute == Some("00")
    ensures !opts.dateOnly && c.second.None? ==> r.second == Some("00")
    ensures r.sign.Some? ==>
      r.offsetHour == Some(if c.offsetHour.Some? then c.offsetHour.value else "00") &&
      r.offsetMinute == Some(if c.offsetMinute.Some? then c.offsetMinute.value else "00")
    ensures !opts.dateOnly ==> r.fraction == c.fraction
    ensures !opts.dateOnly && c.hour.Some? ==> r.hour == c.hour
    ensures !opts.dateOnly && c.minute.Some? ==> r.minute == c.minute
    ensures !opts.dateOnly && c.second.Some? ==> r.second == c.second
    ensures opts.dateOnly ==>
      r.hour == Some("00") && r.minute == Some("00") && r.second == Some("00") && r.fraction.None?
    ensures opts.dateOnly || opts.ignoreTimezone ==>
      !r.utc && r.sign.None? && r.offsetHour.None? && r.offsetMinute.None?
    ensures !opts.dateOnly && !opts.ignoreTimezone ==> r.utc == c.utc && (!c.utc ==> r.sign == c.sign)
  {
    var keepTime := !opts.dateOnly;
    var keepZone := keepTime && !opts.ignoreTimezone;
    var offset := keepZone && !c.utc && c.sign.Some?;
    Captures(
      year := c.year,
      month := Some(c.month.OrElse("01")),
      day := Some(c.day.OrElse("01")),
      hour := Some(if keepTime then c.hour.OrElse("00") else "00"),
      minute := Some(if keepTime then c.minute.OrElse("00") else "00"),
      second := Some(if keepTime then c.second.OrElse("00") else "00"),
      fraction := if keepTime then c.fraction else None,
      utc := keepZone && c.utc,
      sign := if offset then c.sign else None,
      offsetHour := if offset then Some(c.offsetHour.OrElse("00")) else None,
      offsetMinute := if offset then Some(c.offsetMinute.OrElse("00")) else None)
  }

  /**
   * Lines 80 to 91 of `parseDate`: the text is built piece by piece. It is the
   * resolved captures written out.
   */
  method BuildDateText(c: Captures, opts: DateOptions) returns (s: string)
    ensures s == Render(Resolved(c, opts))
  {
    ghost var r := Resolved(c, opts);
    s := c.year + "-" + c.month.OrElse("01") + "-" + c.day.OrElse("01") + "T";
    ghost var date := s;
    DatePartLayout(r);
    assert Render(r) == date + HourText(r);
    if opts.dateOnly {
      s := s + "00:00:00";
      MidnightHourText(r);
    } else {
      var time := c.hour.OrElse("00") + ":" + c.minute.OrElse("00") + ":" + c.second.OrElse("00")
        + (if c.fraction.Some? then "." + c.fraction.value else "");
      s := s + time;
      TimeLayout(r);
      assert HourText(r) == time + ZoneText(r);
      if !opts.ignoreTimezone {
        var zone := if c.utc then "Z"
          else if c.sign.Some? then c.sign.value + c.offsetHour.OrElse("00") + ":" + c.offsetMinute.OrElse("00")
          else "";
        if !c.utc && c.sign.Some? {
          OffsetLayout(r);
        }
        assert ZoneText(r) == zone;
        s := s + zone;
        Regroup3(date, time, zone);
      } else {
        assert ZoneText(r) == "";
        assert time + ZoneText(r) == time;
      }
    }
  }

  lemma Regroup3(a: string, b: string, x: string)
    ensures a + (b + x) == a + b + x
  {
  }

  lemma Regroup5(a: string, b: string, c: string, d: string, e: string, x: string)
    ensures a + (b + (c + (d + (e + x)))) == a + b + c + d + e + x
  {
  }

  /** The date part of a rendering with month, day and time: `YYYY-MM-DDT`, then the time. */
  lemma DatePartLayout(r: Captures)
    requires r.month.Some? && r.day.Some? && r.hour.Some?
    ensures Render(r) == r.year + "-" + r.month.value + "-" + r.day.value + "T" + HourText(r)
  {
    Regroup5(r.year, "-", r.month.value, "-", r.day.value, "T" + HourText(r));
  }

  /** `HH:mm:ss`, the fraction if there is one, then the zone. */
  lemma TimeLayout(r: Captures)
    requires r.hour.Some? && r.minute.Some? && r.second.Some?
    ensures HourText(r) == r.hour.value + ":" + r.minute.value + ":" + r.second.value
      + (if r.fraction.Some? then "." + r.fraction.value else "") + ZoneText(r)
  {
    var f := if r.fraction.Some? then "." + r.fraction.value else "";
    assert FractionText(r) == f + ZoneText(r);
    assert HourText(r) == r.hour.value + (":" + (r.minute.value + (":" + (r.second.value + (f + ZoneText(r))))));
    Regroup5(r.hour.value, ":", r.minute.value, ":", r.second.value, f + ZoneText(r));
    Regroup3(r.hour.value + ":" + r.minute.value + ":" + r.second.value, f, ZoneText(r));
  }

  lemma OffsetLayout(r: Captures)
    requires !r.utc && r.sign.Some? && r.offsetHour.Some? && r.offsetMinute.Some?
    ensures ZoneText(r) == r.sign.value + r.offsetHour.value + ":" + r.offsetMinute.value
  {
    Regroup3(r.sign.value, r.offsetHour.value, ":" + r.offsetMinute.value);
  }

  // ---------------------------------------------------------------------------
  // parseDate

  /** The text `parseDate(v, opts)` hands to `new Date`, or the TypeError it throws. */
  function ParseDateText(v: string, opts: DateOptions): (r: Result<string>)
    ensures r.Failure? <==> MatchDate(v).None?
    ensures r.Failure? ==> r.error == InvalidValue(v, "date")
  {
    match MatchDate(v)
    case None => Failure(InvalidValue(v, "date"))
    case Some(c) => Success(Render(Resolved(c, opts)))
  }

  /** `parseDate(v, opts)`: a Date made from the canonical text. */
  function ParseDateValue(v: string, opts: DateOptions): (r: Result<JsValue>)
    ensures r.Success? <==> ParseDateText(v, opts).Success?
    ensures r.Success? ==> r.value == DateObj(FromText(ParseDateText(v, opts).value))
    ensures r.Failure? ==> r.error == InvalidValue(v, "date")
  {
    match ParseDateText(v, opts)
    case Success(s) => Success(DateObj(FromText(s)))
    case Failure(e) => Failure(e)
  }

  method ParseDate(v: string, opts: DateOptions) returns (r: Result<JsValue>)
    ensures r == ParseDateValue(v, opts)
  {
    var m := MatchDate(v);
    if m.None? {
      return Failure(InvalidValue(v, "date"));
    }
    var s := BuildDateText(m.value, opts);
    return Success(DateObj(FromText(s)));
  }

  // ---------------------------------------------------------------------------
  // What the canonical text is

  /** Filling in defaults keeps the captures within what the pattern matches. */
  lemma ResolvedValid(c: Captures, opts: DateOptions)
    requires Valid(c)
    ensures Valid(Resolved(c, opts))
  {
    var r := Resolved(c, opts);
    assert IsMonth(r.month.value) && IsDay(r.day.value) && IsHour(r.hour.value);
    assert IsSixtieth(r.minute.value) && IsSixtieth(r.second.value);
    assert ZoneValid(r);
  }

  /** Resolving twice changes nothing more. */
  lemma ResolvedIdempotent(c: Captures, opts: DateOptions)
    ensures Resolved(Resolved(c, opts), opts) == Resolved(c, opts)
  {
  }

  /** The canonical text matches the pattern again, with the resolved captures. */
  lemma CanonicalReparses(v: string, opts: DateOptions)
    requires ParseDateText(v, opts).Success?
    ensures MatchDate(ParseDateText(v, opts).value) == Some(Resolved(MatchDate(v).value, opts))
  {
    ResolvedValid(MatchDate(v).value, opts);
    MatchRender(Resolved(MatchDate(v).value, opts));
  }

  /** Parsing the canonical text again, with the same options, gives the same text. */
  lemma CanonicalIsFixedPoint(v: string, opts: DateOptions)
    requires ParseDateText(v, opts).Success?
    ensures ParseDateText(ParseDateText(v, opts).value, opts) == ParseDateText(v, opts)
  {
    CanonicalReparses(v, opts);
    ResolvedIdempotent(MatchDate(v).value, opts);
  }

  /** `parseDate` throws exactly when the pattern does not match, naming the text. */
  lemma ParseDateThrows(v: string, opts: DateOptions)
    ensures ParseDateValue(v, opts).Failure? <==> MatchDate(v).None?
    ensures ParseDateValue(v, opts).Failure? ==>
      ParseDateValue(v, opts).error.message == "\"" + v + "\" is not a valid date value."
  {
  }

  // The lemmas below are about `Render(Resolved(c, opts))`, the text
  // `ParseDateText` returns for the captures `c` of a matching text.

  /** The captures of a matching text, resolved and written out, are what `parseDate` builds. */
  lemma ParseDateTextOfCaptures(v: string, opts: DateOptions)
    requires MatchDate(v).Some?
    ensures Valid(MatchDate(v).value)
    ensures ParseDateText(v, opts) == Success(Render(Resolved(MatchDate(v).value, opts)))
  {
  }

  /** The date part: the year, then the month or `01`, then the day or `01`, then `T`. */
  lemma CanonicalDatePart(c: Captures, opts: DateOptions)
    requires Valid(c)
    ensures var date := c.year + "-" + c.month.OrElse("01") + "-" + c.day.OrElse("01") + "T";
      var s := Render(Resolved(c, opts));
      |date| == 11 && |s| >= 11 && s[..11] == date
  {
    var r := Resolved(c, opts);
    DatePartLayout(r);
    var date := c.year + "-" + c.month.OrElse("01") + "-" + c.day.OrElse("01") + "T";
    assert Render(r) == date + HourText(r);
  }

  /** With `dateOnly` the time is midnight and no zone follows. */
  lemma DateOnlyIsMidnight(c: Captures, opts: DateOptions)
    requires Valid(c) && opts.dateOnly
    ensures var s := Render(Resolved(c, opts));
      |s| == 19 && s[11..] == "00:00:00"
  {
    var r := Resolved(c, opts);
    DatePartLayout(r);
    var date := c.year + "-" + c.month.OrElse("01") + "-" + c.day.OrElse("01") + "T";
    MidnightHourText(r);
    assert |date| == 11;
    assert Render(r) == date + "00:00:00";
  }

  /** `00:00:00` with nothing after it, as resolved captures without a time write it. */
  lemma MidnightHourText(r: Captures)
    requires r.hour == Some("00") && r.minute == Some("00") && r.second == Some("00")
    requires r.fraction.None? && !r.utc && r.sign.None?
    ensures HourText(r) == "00:00:00"
  {
    assert FractionText(r) == "";
    assert HourText(r) == "00" + (":" + ("00" + (":" + ("00" + ""))));
    MidnightLiteral();
  }

  lemma MidnightLiteral()
    ensures "00" + (":" + ("00" + (":" + ("00" + "")))) == "00:00:00"
  {
  }

  /** `b` sits between `a` and `x` in `a + (b + x)`. */
  lemma MiddleOf(a: string, b: string, x: string)
    ensures |a + (b + x)| >= |a| + |b|
    ensures (a + (b + x))[|a|..|a| + |b|] == b
  {
    assert (a + (b + x))[|a|..] == b + x;
  }

  /** The rendered resolved captures without `dateOnly`: date, `HH:mm:ss`, fraction, zone. */
  lemma ResolvedTimeLayout(c: Captures, opts: DateOptions)
    requires !opts.dateOnly
    ensures var r := Resolved(c, opts);
      var date := c.year + "-" + c.month.OrElse("01") + "-" + c.day.OrElse("01") + "T";
      var time := c.hour.OrElse("00") + ":" + c.minute.OrElse("00") + ":" + c.second.OrElse("00");
      var frac := if c.fraction.Some? then "." + c.fraction.value else "";
      Render(r) == date + (time + (frac + ZoneText(r)))
  {
    var r := Resolved(c, opts);
    assert r.hour.value == c.hour.OrElse("00") && r.minute.value == c.minute.OrElse("00");
    assert r.second.value == c.second.OrElse("00") && r.fraction == c.fraction;
    DatePartLayout(r);
    TimeLayout(r);
    var time := r.hour.value + ":" + r.minute.value + ":" + r.second.value;
    var frac := if r.fraction.Some? then "." + r.fraction.value else "";
    Regroup3(time, frac, ZoneText(r));
  }

  /** Without `dateOnly`: hours, minutes and seconds as matched, each defaulting to `00`. */
  lemma CanonicalTimePart(c: Captures, opts: DateOptions)
    requires Valid(c) && !opts.dateOnly
    ensures var time := c.hour.OrElse("00") + ":" + c.minute.OrElse("00") + ":" + c.second.OrElse("00");
      var s := Render(Resolved(c, opts));
      |s| >= 19 && s[11..19] == time
  {
    var r := Resolved(c, opts);
    ResolvedTimeLayout(c, opts);
    var date := c.year + "-" + c.month.OrElse("01") + "-" + c.day.OrElse("01") + "T";
    var time := c.hour.OrElse("00") + ":" + c.minute.OrElse("00") + ":" + c.second.OrElse("00");
    var frac := if c.fraction.Some? then "." + c.fraction.value else "";
    assert |date| == 11 && |time| == 8;
    MiddleOf(date, time, frac + ZoneText(r));
  }

  /** In `date + (time + (("." + f) + z))` with an 11-character date and an 8-character time, `f` follows the dot at 19. */
  lemma DotAt19(date: string, time: string, f: string, z: string)
    requires |date| == 11 && |time| == 8
    ensures var s := date + (time + (("." + f) + z));
      |s| >= 20 + |f| && s[19] == '.' && s[20..20 + |f|] == f
  {
    var s := date + (time + (("." + f) + z));
    assert s == (date + time + ".") + (f + z);
    MiddleOf(date + time + ".", f, z);
  }

  /** Without `dateOnly` a matched fraction follows the seconds, after a dot. */
  lemma FractionWritten(c: Captures, opts: DateOptions)
    requires Valid(c) && !opts.dateOnly && c.fraction.Some?
    ensures var s := Render(Resolved(c, opts)); var f := c.fraction.value;
      |s| >= 20 + |f| && s[19] == '.' && s[20..20 + |f|] == f
  {
    ResolvedTimeLayout(c, opts);
    var date := c.year + "-" + c.month.OrElse("01") + "-" + c.day.OrElse("01") + "T";
    var time := c.hour.OrElse("00") + ":" + c.minute.OrElse("00") + ":" + c.second.OrElse("00");
    assert |date| == 11 && |time| == 8;
    DotAt19(date, time, c.fraction.value, ZoneText(Resolved(c, opts)));
  }

  /** A valid capture with a time carries a well-formed zone. */
  lemma TimedZoneValid(r: Captures)
    requires Valid(r) && r.hour.Some?
    ensures ZoneValid(r)
  {
    assert MonthValid(r) && DayValid(r) && TimeValid(r);
    assert MinuteValid(r) && SecondValid(r) && FractionValid(r);
  }

  /** In `date + (time + ("" + z))` with 19 characters before `z`, position 19 starts `z`. */
  lemma ZoneAt19(date: string, time: string, z: string)
    requires |date| == 11 && |time| == 8
    requires z == [] || z[0] in {'Z', '+', '-'}
    ensures var s := date + (time + ("" + z));
      |s| == 19 || s[19] in {'Z', '+', '-'}
  {
    assert date + (time + ("" + z)) == (date + time) + z;
  }

  /** Without a matched fraction the seconds end the text or a zone designator follows them. */
  lemma NoFractionNoDot(c: Captures, opts: DateOptions)
    requires Valid(c) && !opts.dateOnly && c.fraction.None?
    ensures var s := Render(Resolved(c, opts));
      |s| == 19 || s[19] in {'Z', '+', '-'}
  {
    var r := Resolved(c, opts);
    ResolvedValid(c, opts);
    TimedZoneValid(r);
    ZoneTextStart(r);
    ResolvedTimeLayout(c, opts);
    var date := c.year + "-" + c.month.OrElse("01") + "-" + c.day.OrElse("01") + "T";
    var time := c.hour.OrElse("00") + ":" + c.minute.OrElse("00") + ":" + c.second.OrElse("00");
    assert |date| == 11 && |time| == 8;
    ZoneAt19(date, time, ZoneText(r));
  }

  /** Digits, colons and the fraction's dot: text that carries no zone designator. */
  predicate ClockChars(x: string)
  {
    forall i :: 0 <= i < |x| ==> IsDigit(x[i]) || x[i] == ':' || x[i] == '.'
  }

  lemma ClockCharsJoin(a: string, b: string)
    requires ClockChars(a) && ClockChars(b)
    ensures ClockChars(a + b)
  {
    assert forall i :: 0 <= i < |a + b| ==> (a + b)[i] == if i < |a| then a[i] else b[i - |a|];
  }

  /** `HH:mm:ss` and an optional `.fraction` are clock characters. */
  lemma TimeIsClockChars(h: string, m: string, sec: string, frac: string)
    requires ClockChars(h) && ClockChars(m) && ClockChars(sec) && ClockChars(frac)
    ensures ClockChars(h + ":" + m + ":" + sec + frac)
  {
    ClockCharsJoin(h, ":");
    ClockCharsJoin(h + ":", m);
    ClockCharsJoin(h + ":" + m, ":");
    ClockCharsJoin(h + ":" + m + ":", sec);
    ClockCharsJoin(h + ":" + m + ":" + sec, frac);
  }

  /** The time fields of a valid capture, each defaulting to `00`, are clock characters. */
  lemma CapturedClockChars(c: Captures)
    requires Valid(c)
    ensures ClockChars(c.hour.OrElse("00")) && ClockChars(c.minute.OrElse("00"))
    ensures ClockChars(c.second.OrElse("00"))
    ensures ClockChars(if c.fraction.Some? then "." + c.fraction.value else "")
  {
    assert MonthValid(c) && DayValid(c) && TimeValid(c);
    if c.hour.Some? {
      assert MinuteValid(c) && SecondValid(c) && FractionValid(c);
      if c.fraction.Some? {
        ClockCharsJoin(".", c.fraction.value);
      }
    } else {
      assert TimeFields(c) == NoCaptures;
      assert c.minute.None? && c.second.None? && c.fraction.None?;
    }
  }

  lemma MidnightClockChars()
    ensures ClockChars("00:00:00")
  {
    var t := "00:00:00";
    assert forall i :: 0 <= i < |t| ==> t[i] == '0' || t[i] == ':';
  }

  /** After an 11-character date and with no zone, `time + frac` is all that follows. */
  lemma ClockTail(date: string, time: string, frac: string, zone: string)
    requires |date| == 11 && ClockChars(time + frac) && zone == []
    ensures ClockChars((date + (time + (frac + zone)))[11..])
  {
    assert (date + (time + (frac + zone)))[11..] == time + frac;
  }

  /**
   * No zone designator is written when the options drop the zone or the text
   * has none: after the `T` come only digits, colons and a dot.
   */
  lemma NoZoneWritten(c: Captures, opts: DateOptions)
    requires Valid(c)
    requires opts.dateOnly || opts.ignoreTimezone || (!c.utc && c.sign.None?)
    ensures ClockChars(Render(Resolved(c, opts))[11..])
  {
    if opts.dateOnly {
      DateOnlyIsMidnight(c, opts);
      MidnightClockChars();
    } else {
      var r := Resolved(c, opts);
      ResolvedTimeLayout(c, opts);
      assert ZoneText(r) == "";
      var date := c.year + "-" + c.month.OrElse("01") + "-" + c.day.OrElse("01") + "T";
      var h, m, sec := c.hour.OrElse("00"), c.minute.OrElse("00"), c.second.OrElse("00");
      var frac := if c.fraction.Some? then "." + c.fraction.value else "";
      CapturedClockChars(c);
      TimeIsClockChars(h, m, sec, frac);
      assert |date| == 11;
      ClockTail(date, h + ":" + m + ":" + sec, frac, ZoneText(r));
    }
  }

  /** `z` ends `a + (b + (f + z))`. */
  lemma EndsWith(a: string, b: string, f: string, z: string)
    ensures var s := a + (b + (f + z)); |z| <= |s| && s[|s| - |z|..] == z
  {
    assert a + (b + (f + z)) == (a + b + f) + z;
  }

  /** A matched `Z` is written last, unless the options drop the zone. */
  lemma UtcWrittenLast(c: Captures, opts: DateOptions)
    requires Valid(c) && !opts.dateOnly && !opts.ignoreTimezone && c.utc
    ensures var s := Render(Resolved(c, opts)); |s| > 0 && s[|s| - 1] == 'Z'
  {
    var r := Resolved(c, opts);
    ResolvedTimeLayout(c, opts);
    var date := c.year + "-" + c.month.OrElse("01") + "-" + c.day.OrElse("01") + "T";
    var time := c.hour.OrElse("00") + ":" + c.minute.OrElse("00") + ":" + c.second.OrElse("00");
    var frac := if c.fraction.Some? then "." + c.fraction.value else "";
    assert ZoneText(r) == "Z";
    EndsWith(date, time, frac, ZoneText(r));
  }

  /**
   * A matched offset is written last as sign, hour and `:` minutes, the hour and
   * minutes defaulting to `00`; a one-digit hour is copied as it is.
   */
  lemma OffsetWrittenLast(c: Captures, opts: DateOptions)
    requires !opts.dateOnly && !opts.ignoreTimezone && !c.utc && c.sign.Some?
    ensures var s := Render(Resolved(c, opts));
      var zone := c.sign.value + c.offsetHour.OrElse("00") + ":" + c.offsetMinute.OrElse("00");
      |zone| <= |s| && s[|s| - |zone|..] == zone
  {
    var r := Resolved(c, opts);
    var zone := c.sign.value + c.offsetHour.OrElse("00") + ":" + c.offsetMinute.OrElse("00");
    ResolvedOffset(c, opts);
    assert ZoneText(r) == zone;
    ResolvedTimeLayout(c, opts);
    var date := c.year + "-" + c.month.OrElse("01") + "-" + c.day.OrElse("01") + "T";
    var time := c.hour.OrElse("00") + ":" + c.minute.OrElse("00") + ":" + c.second.OrElse("00");
    var frac := if c.fraction.Some? then "." + c.fraction.value else "";
    assert Render(r) == date + (time + (frac + zone));
    EndsWith(date, time, frac, zone);
  }

  lemma ResolvedOffset(c: Captures, opts: DateOptions)
    requires !opts.dateOnly && !opts.ignoreTimezone && !c.utc && c.sign.Some?
    ensures ZoneText(Resolved(c, opts))
      == c.sign.value + c.offsetHour.OrElse("00") + ":" + c.offsetMinute.OrElse("00")
  {
    var r := Resolved(c, opts);
    assert r.sign == c.sign && !r.utc;
    assert r.offsetHour == Some(c.offsetHour.OrElse("00")) && r.offsetMinute == Some(c.offsetMinute.OrElse("00"));
    OffsetLayout(r);
  }

  /** A bare four-digit year matches with only the year captured. */
  lemma BareYearMatches(y: string)
    requires |y| == 4 && AllDigits(y)
    ensures MatchDate(y) == Some(NoCaptures.(year := y))
  {
    var c := NoCaptures.(year := y);
    assert AfterYearText(c) == "";
    assert Render(c) == y + "";
    assert y + "" == y;
    MatchRender(c);
  }

  /**
   * A bare four-digit year is the first of January at midnight without a zone,
   * whatever the options; written out that is `YYYY-01-01T00:00:00`.
   */
  lemma BareYear(y: string, opts: DateOptions)
    requires |y| == 4 && AllDigits(y)
    ensures MatchDate(y) == Some(NoCaptures.(year := y))
    ensures Resolved(MatchDate(y).value, opts)
      == Captures(y, Some("01"), Some("01"), Some("00"), Some("00"), Some("00"), None, false, None, None, None)
  {
    BareYearMatches(y);
  }
}
