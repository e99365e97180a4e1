/**
 * The pure parts of the activity report builder: the time-of-day classifier
 * for "H:MM AM/PM" strings, the UTC to Manila (UTC+8) 12-hour clock, the
 * MM-DD-YYYY branch of the date parser, the per-user/per-day record filter
 * and the wording of one activity line.
 *
 * JavaScript's falsy values (undefined, null, '') are all written "" where a
 * string field may be missing; what `new Date(...)` makes of a timestamp is a
 * parameter (None for an invalid date).
 */
module ActivityReporter {
  import opened Wrappers
  import opened Text

  // ---------------------------------------------------------------------
  // getTimeOfDay
  // ---------------------------------------------------------------------

  datatype DayPart = Day | Morning | Afternoon | Evening | Night

  /** The characters JavaScript's regular-expression class \s matches. */
  predicate IsSpace(c: char)
  {
    c == ' ' || c == '\t' || c == '\n' || c == '\r' || c == '\U{000B}' || c == '\U{000C}' ||
    c == '\U{00A0}' || c == '\U{1680}' || ('\U{2000}' <= c <= '\U{200A}') ||
    c == '\U{2028}' || c == '\U{2029}' || c == '\U{202F}' || c == '\U{205F}' ||
    c == '\U{3000}' || c == '\U{FEFF}'
  }

  /** The length of the longest run of digits starting at p. */
  function DigitRun(s: string, p: nat): (k: nat)
    requires p <= |s|
    ensures p + k <= |s|
    decreases |s| - p
  {
    if p < |s| && IsDigit(s[p]) then 1 + DigitRun(s, p + 1) else 0
  }

  /** The run is all digits and cannot be extended. */
  lemma {:induction false} DigitRunSpec(s: string, p: nat)
    requires p <= |s|
    ensures var k := DigitRun(s, p);
            (forall i :: p <= i < p + k ==> IsDigit(s[i])) && (p + k == |s| || !IsDigit(s[p + k]))
    decreases |s| - p
  {
    if p < |s| && IsDigit(s[p]) {
      DigitRunSpec(s, p + 1);
    }
  }

  /** The length of the longest run of \s characters starting at p. */
  function SpaceRun(s: string, p: nat): (k: nat)
    requires p <= |s|
    ensures p + k <= |s|
    decreases |s| - p
  {
    if p < |s| && IsSpace(s[p]) then 1 + SpaceRun(s, p + 1) else 0
  }

  /** The run is all \s characters and cannot be extended. */
  lemma {:induction false} SpaceRunSpec(s: string, p: nat)
    requires p <= |s|
    ensures var k := SpaceRun(s, p);
            (forall i :: p <= i < p + k ==> IsSpace(s[i])) && (p + k == |s| || !IsSpace(s[p + k]))
    decreases |s| - p
  {
    if p < |s| && IsSpace(s[p]) {
      SpaceRunSpec(s, p + 1);
    }
  }

  /** The first letter of the period group, matched case-insensitively. */
  predicate IsAm(c: char) { c == 'A' || c == 'a' }

  predicate IsPm(c: char) { c == 'P' || c == 'p' }

  /** What the search needs from a match: the first number and whether the period is PM. */
  datatype Clock = Clock(hour: nat, pm: bool)

  /**
   * An attempt of /(\d+):(\d+)\s*(AM|PM)/i anchored at position p. The greedy
   * runs never need to give characters back: a shorter first run is followed
   * by a digit rather than ':', a shorter second run by a digit rather than
   * a space or a period letter, a shorter space run by a space.
   */
  function MatchAt(s: string, p: nat): Option<Clock>
    requires p <= |s|
  {
    var h := DigitRun(s, p);
    if h == 0 || p + h == |s| || s[p + h] != ':' then None
    else
      var q := p + h + 1;
      var m := DigitRun(s, q);
      if m == 0 then None
      else
        var t := q + m + SpaceRun(s, q + m);
        if t + 2 <= |s| && (IsAm(s[t]) || IsPm(s[t])) && (s[t + 1] == 'M' || s[t + 1] == 'm') then
          DigitRunSpec(s, p);
          assert IsDigits(s[p..p + h]);
          Some(Clock(ParseDigits(s[p..p + h]), IsPm(s[t])))
        else None
  }

  /** String#match without the g flag: the leftmost position where the pattern matches. */
  function FirstMatch(s: string, p: nat): Option<Clock>
    requires p <= |s|
    decreases |s| - p
  {
    if MatchAt(s, p).Some? then MatchAt(s, p)
    else if p == |s| then None
    else FirstMatch(s, p + 1)
  }

  /** The search finds nothing exactly when no position from p on matches. */
  lemma {:induction false} FirstMatchNone(s: string, p: nat)
    requires p <= |s|
    ensures FirstMatch(s, p).None? <==> forall q :: p <= q <= |s| ==> MatchAt(s, q).None?
    decreases |s| - p
  {
    if MatchAt(s, p).None? && p < |s| {
      FirstMatchNone(s, p + 1);
    }
  }

  /** A found match is the match at the leftmost position where the pattern matches. */
  lemma {:induction false} FirstMatchLeftmost(s: string, p: nat)
    requires p <= |s| && FirstMatch(s, p).Some?
    ensures exists q :: p <= q <= |s| && MatchAt(s, q) == FirstMatch(s, p) &&
                        forall q' :: p <= q' < q ==> MatchAt(s, q').None?
    decreases |s| - p
  {
    var here := MatchAt(s, p);
    if here.Some? {
      assert MatchAt(s, p) == FirstMatch(s, p);
    } else {
      assert p < |s| && FirstMatch(s, p) == FirstMatch(s, p + 1);
      FirstMatchLeftmost(s, p + 1);
      var q :| p + 1 <= q <= |s| && MatchAt(s, q) == FirstMatch(s, p + 1) &&
               forall q' :: p + 1 <= q' < q ==> MatchAt(s, q').None?;
    }
  }

  /** The 12-hour to 24-hour conversion applied to the parsed hour. */
  function To24Hour(hour: nat, pm: bool): nat
  {
    if pm && hour < 12 then hour + 12
    else if !pm && hour == 12 then 0
    else hour
  }

  /** The bucket of a 24-hour value. */
  function Bucket(hour: nat): DayPart
  {
    if 5 <= hour < 12 then Morning
    else if 12 <= hour < 17 then Afternoon
    else if 17 <= hour < 21 then Evening
    else Night
  }

  /** getTimeOfDay: "" stands for every falsy argument. */
  function TimeOfDay(timeStr: string): DayPart
  {
    if timeStr == "" || timeStr == "Unknown" then Day
    else match FirstMatch(timeStr, 0)
      case None => Day
      case Some(c) => Bucket(To24Hour(c.hour, c.pm))
  }

  /** The result is Day exactly for a missing string, "Unknown", or a string with no match. */
  lemma TimeOfDayDefault(timeStr: string)
    ensures TimeOfDay(timeStr) == Day <==>
            timeStr == "" || timeStr == "Unknown" || forall q :: 0 <= q <= |timeStr| ==> MatchAt(timeStr, q).None?
  {
    FirstMatchNone(timeStr, 0);
    if timeStr != "" && timeStr != "Unknown" && FirstMatch(timeStr, 0).Some? {
      assert Bucket(To24Hour(FirstMatch(timeStr, 0).value.hour, FirstMatch(timeStr, 0).value.pm)) != Day;
    }
  }

  /** The conversion moves afternoon hours by 12, maps 12 AM to 0 and fixes the rest. */
  lemma To24HourSpec(hour: nat, pm: bool)
    ensures pm && hour < 12 ==> To24Hour(hour, pm) == hour + 12
    ensures !pm && hour == 12 ==> To24Hour(hour, pm) == 0
    ensures (pm && hour >= 12) || (!pm && hour != 12) ==> To24Hour(hour, pm) == hour
    ensures 1 <= hour <= 12 ==> To24Hour(hour, pm) < 24 && (pm <==> To24Hour(hour, pm) >= 12)
  {
  }

  /** Exactly one bucket applies to each hour, and it is never Day. */
  lemma BucketExactlyOne(hour: nat)
    ensures Bucket(hour) == Morning <==> 5 <= hour < 12
    ensures Bucket(hour) == Afternoon <==> 12 <= hour < 17
    ensures Bucket(hour) == Evening <==> 17 <= hour < 21
    ensures Bucket(hour) == Night <==> hour < 5 || 21 <= hour
    ensures Bucket(hour) != Day
  {
  }

  // ---------------------------------------------------------------------
  // convertToManilaTime
  // ---------------------------------------------------------------------

  /** What Date#getUTCHours and Date#getUTCMinutes return for a valid date. */
  datatype UtcTime = UtcTime(hours: nat, minutes: nat)

  predicate ValidUtc(t: UtcTime) { t.hours < 24 && t.minutes < 60 }

  /** The Manila hour on a 24-hour clock. */
  function ManilaHour(utcHours: nat): (h: nat)
  {
    (utcHours + 8) % 24
  }

  /** `h % 12 || 12`: the hour on a 12-hour clock face. */
  function TwelveHour(h24: nat): nat
  {
    if h24 % 12 == 0 then 12 else h24 % 12
  }

  function Period(h24: nat): string
  {
    if h24 >= 12 then "PM" else "AM"
  }

  /** The "H:MM AM" rendering of a UTC time in Manila. */
  function ManilaClock(t: UtcTime): string
    requires ValidUtc(t)
  {
    var h := ManilaHour(t.hours);
    NatToString(TwelveHour(h)) + ":" + PadStart2(NatToString(t.minutes)) + " " + Period(h)
  }

  /**
   * convertToManilaTime. `timestamp` is "" for every falsy value; `parsed` is
   * what `new Date(timestamp)` yields, None for an invalid date. The result
   * None is the null the source returns.
   */
  function ConvertToManilaTime(timestamp: string, parsed: Option<UtcTime>): Option<string>
    requires parsed.Some? ==> ValidUtc(parsed.value)
  {
    if timestamp == "" then None
    else if timestamp == "SignIn" || timestamp == "SignOut" then Some(timestamp)
    else match parsed
      case None => Some(timestamp)
      case Some(t) => Some(ManilaClock(t))
  }

  /** The displayed clock reads the Manila hour: 1..12, PM from noon, and it converts back. */
  lemma ManilaClockFace(utcHours: nat)
    requires utcHours < 24
    ensures var h := ManilaHour(utcHours);
            1 <= TwelveHour(h) <= 12 &&
            (Period(h) == "PM" <==> h >= 12) &&
            To24Hour(TwelveHour(h), Period(h) == "PM") == h &&
            h == (if utcHours < 16 then utcHours + 8 else utcHours - 16)
  {
  }

  /**
   * The displayed clock carries the minutes unchanged: the hour digits parse
   * back to the 12-hour hour, then ':', two zero-padded minute digits that
   * parse back to the minutes, a space and the period.
   */
  lemma ManilaClockFields(t: UtcTime)
    requires ValidUtc(t)
    ensures var h := ManilaHour(t.hours);
            var s := ManilaClock(t);
            var a := |NatToString(TwelveHour(h))|;
            1 <= a <= 2 && |s| == a + 6 &&
            IsDigits(s[..a]) && ParseDigits(s[..a]) == TwelveHour(h) && s[a] == ':' &&
            IsDigits(s[a + 1..a + 3]) && ParseDigits(s[a + 1..a + 3]) == t.minutes &&
            s[a + 3] == ' ' && s[a + 4..] == Period(h)
  {
    var h := ManilaHour(t.hours);
    var hourText := NatToString(TwelveHour(h));
    var minuteText := PadStart2(NatToString(t.minutes));
    var s := ManilaClock(t);
    assert |hourText| <= 2 by { assert TwelveHour(h) <= 12; }
    PadTwoDigitsValue(t.minutes);
    ParseNatToString(TwelveHour(h));
    assert s == hourText + ":" + minuteText + " " + Period(h);
    ClockTextChars(hourText, minuteText, Period(h));
  }

  /** A missing timestamp gives null; the two sentinels and invalid dates pass through unchanged. */
  lemma ConvertToManilaTimeCases(timestamp: string, parsed: Option<UtcTime>)
    requires parsed.Some? ==> ValidUtc(parsed.value)
    ensures ConvertToManilaTime(timestamp, parsed).None? <==> timestamp == ""
    ensures timestamp == "SignIn" || timestamp == "SignOut" ==> ConvertToManilaTime(timestamp, parsed) == Some(timestamp)
    ensures timestamp != "" && parsed.None? ==> ConvertToManilaTime(timestamp, parsed) == Some(timestamp)
  {
  }

  /** A run of exactly k digits starts at p. */
  lemma DigitRunExact(s: string, p: nat, k: nat)
    requires p + k <= |s|
    requires forall i :: p <= i < p + k ==> IsDigit(s[i])
    requires p + k == |s| || !IsDigit(s[p + k])
    ensures DigitRun(s, p) == k
    decreases k
  {
    if k > 0 {
      DigitRunExact(s, p + 1, k - 1);
    }
  }

  /** Where the characters of an "H:MM AM" rendering sit. */
  lemma ClockTextChars(hourText: string, minuteText: string, period: string)
    requires 1 <= |hourText| && |minuteText| == 2 && |period| == 2
    ensures var s := hourText + ":" + minuteText + " " + period;
            var a := |hourText|;
            |s| == a + 6 && s[..a] == hourText && s[a] == ':' &&
            s[a + 1] == minuteText[0] && s[a + 2] == minuteText[1] && s[a + 3] == ' ' &&
            s[a + 4] == period[0] && s[a + 5] == period[1] &&
            s[a + 1..a + 3] == minuteText && s[a + 4..] == period
  {
    var s := hourText + ":" + minuteText + " " + period;
    assert s == hourText + (":" + minuteText + " " + period);
  }

  /** The pattern matches at 0 in a string laid out as digits, ':', two digits, ' ', A or P, M. */
  lemma MatchAtClockLayout(s: string, a: nat)
    requires 1 <= a && |s| == a + 6
    requires IsDigits(s[..a])
    requires s[a] == ':' && IsDigit(s[a + 1]) && IsDigit(s[a + 2]) && s[a + 3] == ' '
    requires (s[a + 4] == 'A' || s[a + 4] == 'P') && s[a + 5] == 'M'
    ensures MatchAt(s, 0) == Some(Clock(ParseDigits(s[..a]), s[a + 4] == 'P'))
  {
    assert DigitRun(s, 0) == a by {
      forall i | 0 <= i < a ensures IsDigit(s[i]) {
        assert s[i] == s[..a][i];
      }
      DigitRunExact(s, 0, a);
    }
    assert DigitRun(s, a + 1) == 2 by {
      DigitRunExact(s, a + 1, 2);
    }
    assert SpaceRun(s, a + 3) == 1 by {
      assert SpaceRun(s, a + 4) == 0;
    }
    MatchAtRuns(s, 0, a, 2, 1);
    assert s[0..a] == s[..a];
  }

  /** MatchAt read off from the lengths of its three runs. */
  lemma MatchAtRuns(s: string, p: nat, h: nat, m: nat, sp: nat)
    requires p <= |s| && DigitRun(s, p) == h && 0 < h && p + h < |s| && s[p + h] == ':'
    requires DigitRun(s, p + h + 1) == m && 0 < m && SpaceRun(s, p + h + 1 + m) == sp
    requires p + h + 1 + m + sp + 2 <= |s|
    requires IsAm(s[p + h + 1 + m + sp]) || IsPm(s[p + h + 1 + m + sp])
    requires s[p + h + 2 + m + sp] == 'M' || s[p + h + 2 + m + sp] == 'm'
    ensures IsDigits(s[p..p + h])
    ensures MatchAt(s, p) == Some(Clock(ParseDigits(s[p..p + h]), IsPm(s[p + h + 1 + m + sp])))
  {
    DigitRunSpec(s, p);
  }

  /** A run of exactly k \s characters starts at p. */
  lemma SpaceRunExact(s: string, p: nat, k: nat)
    requires p + k <= |s|
    requires forall i :: p <= i < p + k ==> IsSpace(s[i])
    requires p + k == |s| || !IsSpace(s[p + k])
    ensures SpaceRun(s, p) == k
    decreases k
  {
    if k > 0 {
      SpaceRunExact(s, p + 1, k - 1);
    }
  }

  /**
   * The pattern /(\d+):(\d+)\s*(AM|PM)/i read literally, with the lengths of
   * its three repetitions given: h digits from p, ':', m digits, sp \s
   * characters, then a period letter and 'M', in either case.
   */
  predicate PatternAt(s: string, p: nat, h: nat, m: nat, sp: nat)
  {
    var q := p + h + 1;
    var t := q + m + sp;
    1 <= h && 1 <= m && t + 2 <= |s| &&
    (forall i :: p <= i < p + h ==> IsDigit(s[i])) && s[p + h] == ':' &&
    (forall i :: q <= i < q + m ==> IsDigit(s[i])) &&
    (forall i :: q + m <= i < t ==> IsSpace(s[i])) &&
    (IsAm(s[t]) || IsPm(s[t])) && (s[t + 1] == 'M' || s[t + 1] == 'm')
  }

  /**
   * Any way the pattern can match at p uses the longest runs, so backtracking
   * never finds another split, and MatchAt reports that match: the hour group
   * is the maximal digit run at p and the period is the letter after the spaces.
   */
  lemma MatchAtComplete(s: string, p: nat, h: nat, m: nat, sp: nat)
    requires PatternAt(s, p, h, m, sp)
    ensures h == DigitRun(s, p) && m == DigitRun(s, p + h + 1) && sp == SpaceRun(s, p + h + 1 + m)
    ensures IsDigits(s[p..p + h])
    ensures MatchAt(s, p) == Some(Clock(ParseDigits(s[p..p + h]), IsPm(s[p + h + 1 + m + sp])))
  {
    var q := p + h + 1;
    var t := q + m + sp;
    DigitRunExact(s, p, h);
    assert !IsDigit(s[q + m]) by {
      if sp > 0 {
        assert IsSpace(s[q + m]);
      }
    }
    DigitRunExact(s, q, m);
    SpaceRunExact(s, q + m, sp);
    MatchAtRuns(s, p, h, m, sp);
  }

  /** Whatever MatchAt accepts is a match of the pattern. */
  lemma MatchAtSound(s: string, p: nat)
    requires p <= |s| && MatchAt(s, p).Some?
    ensures exists h, m, sp :: PatternAt(s, p, h, m, sp)
  {
    var h := DigitRun(s, p);
    var q := p + h + 1;
    var m := DigitRun(s, q);
    var sp := SpaceRun(s, q + m);
    DigitRunSpec(s, p);
    DigitRunSpec(s, q);
    SpaceRunSpec(s, q + m);
    assert PatternAt(s, p, h, m, sp);
  }

  /** MatchAt succeeds at p exactly when the pattern matches at p. */
  lemma MatchAtIsPattern(s: string, p: nat)
    requires p <= |s|
    ensures MatchAt(s, p).Some? <==> exists h, m, sp :: PatternAt(s, p, h, m, sp)
  {
    if MatchAt(s, p).Some? {
      MatchAtSound(s, p);
    }
    if exists h, m, sp :: PatternAt(s, p, h, m, sp) {
      var h, m, sp :| PatternAt(s, p, h, m, sp);
      MatchAtComplete(s, p, h, m, sp);
    }
  }

  /** The pattern matches at the start of "H:MM AM" and "HH:MM PM" renderings. */
  lemma MatchClockText(hourText: string, minuteText: string, period: string)
    requires IsDigits(hourText) && 1 <= |hourText| <= 2
    requires IsDigits(minuteText) && |minuteText| == 2
    requires period == "AM" || period == "PM"
    ensures var s := hourText + ":" + minuteText + " " + period;
            MatchAt(s, 0) == Some(Clock(ParseDigits(hourText), period == "PM"))
  {
    var s := hourText + ":" + minuteText + " " + period;
    var a := |hourText|;
    assert s[..a] == hourText && (s[a + 4] == 'P' <==> period == "PM") by {
      ClockTextChars(hourText, minuteText, period);
    }
    assert MatchAt(s, 0) == Some(Clock(ParseDigits(s[..a]), s[a + 4] == 'P')) by {
      ClockTextChars(hourText, minuteText, period);
      assert IsDigit(minuteText[0]) && IsDigit(minuteText[1]);
      MatchAtClockLayout(s, a);
    }
  }

  /**
   * Reading back a converted time: getTimeOfDay of the Manila rendering of a
   * UTC time is the bucket of the Manila hour.
   */
  lemma ManilaTimeOfDay(t: UtcTime)
    requires ValidUtc(t)
    ensures TimeOfDay(ManilaClock(t)) == Bucket(ManilaHour(t.hours))
  {
    var h := ManilaHour(t.hours);
    var hourText := NatToString(TwelveHour(h));
    var minuteText := PadStart2(NatToString(t.minutes));
    var s := ManilaClock(t);
    var clock := Clock(TwelveHour(h), Period(h) == "PM");
    assert MatchAt(s, 0) == Some(clock) by {
      assert |hourText| <= 2 by { assert TwelveHour(h) <= 12; }
      assert s == hourText + ":" + minuteText + " " + Period(h);
      MatchClockText(hourText, minuteText, Period(h));
      ParseNatToString(TwelveHour(h));
    }
    assert s != "" && s != "Unknown" by {
      assert s[|hourText|] == ':' by {
        ClockTextChars(hourText, minuteText, Period(h));
      }
      assert "Unknown"[1] != ':' && "Unknown"[2] != ':';
      assert 1 <= |hourText| <= 2 by { assert TwelveHour(h) <= 12; }
    }
    assert TimeOfDay(s) == Bucket(To24Hour(clock.hour, clock.pm));
    ManilaClockFace(t.hours);
  }

  // ---------------------------------------------------------------------
  // parseDate, MM-DD-YYYY branch
  // ---------------------------------------------------------------------

  /** The three captured groups of /^(\d{1,2})-(\d{1,2})-(\d{4})$/. */
  datatype DateFields = DateFields(month: string, day: string, year: string)

  /** The anchored pattern holds with a month of m digits and a day of d digits. */
  predicate FieldsAt(s: string, m: nat, d: nat)
  {
    |s| == m + d + 6 && IsDigits(s[..m]) && s[m] == '-' &&
    IsDigits(s[m + 1..m + 1 + d]) && s[m + 1 + d] == '-' && IsDigits(s[m + 2 + d..])
  }

  function FieldsOf(s: string, m: nat, d: nat): (f: DateFields)
    requires FieldsAt(s, m, d)
    ensures IsDigits(f.month) && |f.month| == m
    ensures IsDigits(f.day) && |f.day| == d
    ensures IsDigits(f.year) && |f.year| == 4
    ensures s == f.month + "-" + f.day + "-" + f.year
  {
    DateFields(s[..m], s[m + 1..m + 1 + d], s[m + 2 + d..])
  }

  /** String#match with the anchored pattern; the greedy {1,2} tries two digits first. */
  function MatchDate(s: string): Option<DateFields>
  {
    if FieldsAt(s, 2, 2) then Some(FieldsOf(s, 2, 2))
    else if FieldsAt(s, 2, 1) then Some(FieldsOf(s, 2, 1))
    else if FieldsAt(s, 1, 2) then Some(FieldsOf(s, 1, 2))
    else if FieldsAt(s, 1, 1) then Some(FieldsOf(s, 1, 1))
    else None
  }

  /** The formatted date: the year's value, then month and day zero-padded to two digits. */
  function FormatDate(f: DateFields): string
    requires IsDigits(f.month) && IsDigits(f.day) && IsDigits(f.year)
  {
    NatToString(ParseDigits(f.year)) + "-" +
    PadStart2(NatToString(ParseDigits(f.month))) + "-" +
    PadStart2(NatToString(ParseDigits(f.day)))
  }

  /** parseDate on the MM-DD-YYYY branch; None stands for falling through to the Date-based parsing. */
  function ParseMonthDayYear(dateStr: string): Option<string>
  {
    match MatchDate(dateStr)
    case None => None
    case Some(f) => Some(FormatDate(f))
  }

  /** The pattern matches exactly when some month and day widths of one or two digits fit. */
  lemma MatchDateSpec(s: string)
    ensures MatchDate(s).Some? <==> exists m, d :: 1 <= m <= 2 && 1 <= d <= 2 && FieldsAt(s, m, d)
    ensures MatchDate(s).Some? ==> s == MatchDate(s).value.month + "-" + MatchDate(s).value.day + "-" + MatchDate(s).value.year
  {
    if exists m, d :: 1 <= m <= 2 && 1 <= d <= 2 && FieldsAt(s, m, d) {
      var m, d :| 1 <= m <= 2 && 1 <= d <= 2 && FieldsAt(s, m, d);
      assert m == 1 || m == 2;
      assert d == 1 || d == 2;
    }
  }

  /** The widths are determined by the string: at most one split matches. */
  lemma FieldsUnique(s: string, m: nat, d: nat, m': nat, d': nat)
    requires 1 <= m <= 2 && 1 <= d <= 2 && 1 <= m' <= 2 && 1 <= d' <= 2
    requires FieldsAt(s, m, d) && FieldsAt(s, m', d')
    ensures m == m' && d == d'
  {
  }

  /** Fields of the right widths, joined with '-', are matched back as those fields. */
  lemma MatchDateOf(f: DateFields)
    requires IsDigits(f.month) && IsDigits(f.day) && IsDigits(f.year)
    requires 1 <= |f.month| <= 2 && 1 <= |f.day| <= 2 && |f.year| == 4
    ensures MatchDate(f.month + "-" + f.day + "-" + f.year) == Some(f)
  {
    var s := f.month + "-" + f.day + "-" + f.year;
    var m, d := |f.month|, |f.day|;
    assert s[..m] == f.month && s[m + 1..m + 1 + d] == f.day && s[m + 2 + d..] == f.year;
    assert FieldsAt(s, m, d);
    assert FieldsOf(s, m, d) == f;
    if FieldsAt(s, 2, 2) {
      FieldsUnique(s, 2, 2, m, d);
    } else if FieldsAt(s, 2, 1) {
      FieldsUnique(s, 2, 1, m, d);
    } else if FieldsAt(s, 1, 2) {
      FieldsUnique(s, 1, 2, m, d);
    }
  }

  /**
   * MM-DD-YYYY becomes YYYY-MM-DD: a one-digit month or day gains a leading
   * zero, and a year without a leading zero is copied as written.
   */
  lemma ParseMonthDayYearRearranges(dateStr: string)
    requires MatchDate(dateStr).Some?
    ensures var f := MatchDate(dateStr).value;
            f.year[0] != '0' ==>
              ParseMonthDayYear(dateStr) ==
              Some(f.year + "-" + (if |f.month| == 2 then f.month else "0" + f.month) + "-" +
                   (if |f.day| == 2 then f.day else "0" + f.day))
  {
    var f := MatchDate(dateStr).value;
    PadParseTwoDigits(f.month);
    PadParseTwoDigits(f.day);
    if f.year[0] != '0' {
      NatToStringParse(f.year);
    }
  }

  /** Any well-formed month, day and year, written MM-DD-YYYY, are rearranged into YYYY-MM-DD. */
  lemma ParseMonthDayYearOf(f: DateFields)
    requires IsDigits(f.month) && IsDigits(f.day) && IsDigits(f.year)
    requires 1 <= |f.month| <= 2 && 1 <= |f.day| <= 2 && |f.year| == 4 && f.year[0] != '0'
    ensures ParseMonthDayYear(f.month + "-" + f.day + "-" + f.year) ==
            Some(f.year + "-" + (if |f.month| == 2 then f.month else "0" + f.month) + "-" +
                 (if |f.day| == 2 then f.day else "0" + f.day))
  {
    MatchDateOf(f);
    ParseMonthDayYearRearranges(f.month + "-" + f.day + "-" + f.year);
  }

  /** No range check: a thirteenth month and a forty-fifth day are passed through. */
  lemma ParseMonthDayYearNoValidation()
    ensures ParseMonthDayYear("13-45-2025") == Some("2025-13-45")
  {
    var f := DateFields("13", "45", "2025");
    assert f.month + "-" + f.day + "-" + f.year == "13-45-2025";
    assert f.year + "-" + f.month + "-" + f.day == "2025-13-45";
    ParseMonthDayYearOf(f);
  }

  /** A year written with a leading zero loses it: "0999" is rendered as 999. */
  lemma ParseMonthDayYearShortYear()
    ensures ParseMonthDayYear("3-5-0999") == Some("999-03-05")
  {
    var f := DateFields("3", "5", "0999");
    assert f.month + "-" + f.day + "-" + f.year == "3-5-0999";
    assert "999" + "-" + "03" + "-" + "05" == "999-03-05";
    MatchDateOf(f);
    LeadingZeroYear();
    PadParseTwoDigits(f.month);
    PadParseTwoDigits(f.day);
    assert FormatDate(f) == "999" + "-" + "03" + "-" + "05";
  }

  /** The value of "0999" is 999, which renders as "999". */
  lemma LeadingZeroYear()
    ensures ParseDigits("0999") == 999 && NatToString(999) == "999"
  {
    assert ParseDigits("0") == 0 by { assert "0"[..0] == []; }
    assert ParseDigits("09") == 9 by { assert "09"[..1] == "0"; }
    assert ParseDigits("099") == 99 by { assert "099"[..2] == "09"; }
    assert ParseDigits("0999") == 999 by { assert "0999"[..3] == "099"; }
    assert NatToString(9) == "9";
    assert NatToString(99) == "99";
  }

  // ---------------------------------------------------------------------
  // fetchUserActivity / fetchUserSessions filters
  // ---------------------------------------------------------------------

  /**
   * A scanned record: its UserId (None when absent) and the two spellings of
   * its time field, Timestamp/timestamp for activity logs and
   * StartTime/startTime for sessions ("" when absent).
   */
  datatype ScannedItem = ScannedItem(userId: Option<string>, time: string, timeFallback: string)

  /** The first ten characters of the first present time field, or "" when neither is present. */
  function ItemDate(item: ScannedItem): (d: string)
  {
    var field := if item.time != "" then item.time else item.timeFallback;
    if field == "" then "" else field[..if |field| < 10 then |field| else 10]
  }

  /** The filter predicate: the record is the user's and its date prefix is the requested date. */
  predicate OnDay(item: ScannedItem, userId: string, date: string)
  {
    item.userId == Some(userId) && ItemDate(item) == date
  }

  /** Array#filter with OnDay. */
  function FilterItems(items: seq<ScannedItem>, userId: string, date: string): (r: seq<ScannedItem>)
    ensures |r| <= |items|
  {
    if items == [] then []
    else
      var rest := FilterItems(items[1..], userId, date);
      if OnDay(items[0], userId, date) then [items[0]] + rest else rest
  }

  /** The filter keeps every matching record, as often as it occurs, and nothing else. */
  lemma {:induction false} FilterItemsSpec(items: seq<ScannedItem>, userId: string, date: string)
    ensures forall x :: x in FilterItems(items, userId, date) ==> OnDay(x, userId, date)
    ensures forall x :: multiset(FilterItems(items, userId, date))[x] ==
                        if OnDay(x, userId, date) then multiset(items)[x] else 0
  {
    if items != [] {
      FilterItemsSpec(items[1..], userId, date);
      assert items == [items[0]] + items[1..];
      assert multiset(items) == multiset{items[0]} + multiset(items[1..]);
    }
  }

  /** The date compared is the first ten characters of the time field, falling back to the second spelling. */
  lemma ItemDateSpec(item: ScannedItem)
    ensures item.time != "" ==> ItemDate(item) == item.time[..if |item.time| < 10 then |item.time| else 10]
    ensures item.time == "" ==> ItemDate(item) == item.timeFallback[..if |item.timeFallback| < 10 then |item.timeFallback| else 10]
    ensures |ItemDate(item)| <= 10
  {
  }

  /** Filtering keeps the relative order: it is idempotent and distributes over concatenation. */
  lemma {:induction false} FilterAppend(a: seq<ScannedItem>, b: seq<ScannedItem>, userId: string, date: string)
    ensures FilterItems(a + b, userId, date) == FilterItems(a, userId, date) + FilterItems(b, userId, date)
  {
    if a != [] {
      assert (a + b)[1..] == a[1..] + b;
      FilterAppend(a[1..], b, userId, date);
    } else {
      assert a + b == b;
    }
  }

  /** Filtering twice is filtering once. */
  lemma {:induction false} FilterIdempotent(items: seq<ScannedItem>, userId: string, date: string)
    ensures FilterItems(FilterItems(items, userId, date), userId, date) == FilterItems(items, userId, date)
  {
    if items != [] {
      FilterIdempotent(items[1..], userId, date);
      var rest := FilterItems(items[1..], userId, date);
      if OnDay(items[0], userId, date) {
        assert ([items[0]] + rest)[1..] == rest;
      }
    }
  }

  // ---------------------------------------------------------------------
  // formatActivityReport: key activity lines
  // ---------------------------------------------------------------------

  /** The shapes the details of an activity can take: a string, an object with a message, or nothing. */
  datatype Details = Text(text: string) | Structured(message: string) | Absent

  /**
   * One entry of the activities list: its converted timestamp, its type, a
   * second type field consulted when the first is missing, its details and a
   * second details field consulted last ("" for every missing string).
   */
  datatype Activity = Activity(timestamp: string, activityType: string, typeFallback: string,
                               details: Details, detailsFallback: string)

  function ActivityTime(a: Activity): string
  {
    if a.timestamp != "" then a.timestamp else "Unknown time"
  }

  function ActivityTypeOf(a: Activity): string
  {
    if a.activityType != "" then a.activityType
    else if a.typeFallback != "" then a.typeFallback
    else "Unknown activity"
  }

  /** A string is taken as it is (even empty); an object contributes a non-empty message; then the fallbacks. */
  function ActivityDetails(a: Activity): string
  {
    match a.details
    case Text(text) => text
    case Structured(message) =>
      if message != "" then message
      else if a.detailsFallback != "" then a.detailsFallback else "No details available"
    case Absent =>
      if a.detailsFallback != "" then a.detailsFallback else "No details available"
  }

  function Wording(activityType: string, details: string): string
  {
    if activityType == "SignIn" then "Started work session"
    else if activityType == "SignOut" then "Ended work session"
    else if activityType == "Update" then "Worked on \"" + details + "\""
    else activityType + " - " + details
  }

  /** The bullet line for one activity. */
  function ActivityLine(a: Activity): string
  {
    "• " + ActivityTime(a) + ": " + Wording(ActivityTypeOf(a), ActivityDetails(a))
  }

  function ActivityLines(activities: seq<Activity>): (lines: seq<string>)
    ensures |lines| == |activities|
    ensures forall i :: 0 <= i < |activities| ==> lines[i] == ActivityLine(activities[i])
  {
    seq(|activities|, i requires 0 <= i < |activities| => ActivityLine(activities[i]))
  }

  const NoActivities := "• No specific activities recorded."

  /** The "Key Activities" section body: the lines joined by newlines, or the fallback when there are none. */
  function KeyActivities(activities: seq<Activity>): string
  {
    var joined := JoinWith(ActivityLines(activities), "\n");
    if joined != "" then joined else NoActivities
  }

  /** Each line is a bullet, the time, a colon, then the wording chosen by the activity type. */
  lemma ActivityLineSpec(a: Activity)
    ensures var line := ActivityLine(a);
            var prefix := "• " + ActivityTime(a) + ": ";
            var details := ActivityDetails(a);
            |line| > |prefix| && line[..|prefix|] == prefix &&
            (ActivityTypeOf(a) == "SignIn" ==> line[|prefix|..] == "Started work session") &&
            (ActivityTypeOf(a) == "SignOut" ==> line[|prefix|..] == "Ended work session") &&
            (ActivityTypeOf(a) == "Update" ==>
               line[|prefix|..][..11] == "Worked on \"" && line[|prefix| + 11..|line| - 1] == details &&
               line[|line| - 1] == '"') &&
            (ActivityTypeOf(a) !in {"SignIn", "SignOut", "Update"} ==>
               line[|prefix|..] == ActivityTypeOf(a) + " - " + details)
  {
    var prefix := "• " + ActivityTime(a) + ": ";
    var line := ActivityLine(a);
    var w := Wording(ActivityTypeOf(a), ActivityDetails(a));
    assert line == prefix + w;
    assert line[|prefix|..] == w;
    if ActivityTypeOf(a) == "Update" {
      assert w == "Worked on \"" + ActivityDetails(a) + "\"";
      assert line[|prefix| + 11..|line| - 1] == w[11..|w| - 1];
    }
  }

  /** The fallback appears exactly when there are no activities; otherwise the first line leads. */
  lemma KeyActivitiesSpec(activities: seq<Activity>)
    ensures activities == [] ==> KeyActivities(activities) == NoActivities
    ensures activities != [] ==>
              var first := ActivityLine(activities[0]);
              |KeyActivities(activities)| >= |first| && KeyActivities(activities)[..|first|] == first
  {
    if activities != [] {
      var lines := ActivityLines(activities);
      var first := ActivityLine(activities[0]);
      assert lines[0] == first;
      assert first[0] == '•';
      var joined := JoinWith(lines, "\n");
      assert joined[..|first|] == first;
      assert joined[0] == '•';
    }
  }

  /** One activity gives its own line and nothing else. */
  lemma KeyActivitiesOne(a: Activity)
    ensures KeyActivities([a]) == ActivityLine(a)
  {
    assert ActivityLines([a]) == [ActivityLine(a)];
    assert ActivityLine(a)[0] == '•';
  }

  /**
   * One more activity adds a newline and its line at the end. With
   * KeyActivitiesOne this fixes the section body for every non-empty list.
   */
  lemma KeyActivitiesAppend(activities: seq<Activity>, a: Activity)
    requires activities != []
    ensures KeyActivities(activities + [a]) == KeyActivities(activities) + "\n" + ActivityLine(a)
  {
    var lines := ActivityLines(activities);
    assert ActivityLines(activities + [a]) == lines + [ActivityLine(a)];
    JoinWithAppend(lines, "\n", ActivityLine(a));
    var joined := JoinWith(lines, "\n");
    assert joined != "" by {
      assert lines[0] == ActivityLine(activities[0]);
      assert ActivityLine(activities[0])[0] == '•';
      assert joined[0] == '•';
    }
    var longer := JoinWith(lines + [ActivityLine(a)], "\n");
    assert longer != "" by {
      assert longer == joined + "\n" + ActivityLine(a);
      assert |longer| >= |joined|;
    }
  }
}
