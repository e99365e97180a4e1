/**
 * The arithmetic behind the "who's working" status list: the h/m/s duration
 * formatter, the per-session work and break seconds, and the truncation of
 * the embed description.
 *
 * The seconds come from `Math.floor((now - date) / 1000)`, which is NaN when
 * the date string is invalid; a Seconds value is either a whole number or NaN.
 */
module WhosWorking {
  import opened Wrappers
  import opened Text

  datatype Seconds = Whole(n: int) | NaN

  function Add(a: Seconds, b: Seconds): Seconds
  {
    if a.Whole? && b.Whole? then Whole(a.n + b.n) else NaN
  }

  function Sub(a: Seconds, b: Seconds): Seconds
  {
    if a.Whole? && b.Whole? then Whole(a.n - b.n) else NaN
  }

  // ---------------------------------------------------------------------
  // formatDurationWithSeconds
  // ---------------------------------------------------------------------

  /**
   * formatDurationWithSeconds. A negative total counts as 0. Hours appear
   * when positive, then minutes when positive, and seconds only when both are
   * 0. With NaN every comparison is false, so no part is pushed and the
   * '0s' fallback is returned.
   */
  function FormatDuration(total: Seconds): string
  {
    match total
    case NaN => "0s"
    case Whole(n) =>
      var parts := DurationParts(Breakdown(if n < 0 then 0 else n));
      if |parts| > 0 then JoinWith(parts, " ") else "0s"
  }

  datatype Hms = Hms(hours: nat, minutes: nat, seconds: nat)

  /** Whole hours, the minutes left over, the seconds left over. */
  function Breakdown(t: nat): Hms
  {
    Hms(t / 3600, (t % 3600) / 60, t % 60)
  }

  /** The conditionally pushed parts. */
  function DurationParts(d: Hms): seq<string>
  {
    (if d.hours > 0 then [NatToString(d.hours) + "h"] else []) +
    (if d.minutes > 0 then [NatToString(d.minutes) + "m"] else []) +
    (if d.hours == 0 && d.minutes == 0 then [NatToString(d.seconds) + "s"] else [])
  }

  /** The shown rendering of a breakdown: "Hh Mm", "Hh", "Mm" or "Ss". */
  function Shape(d: Hms): string
  {
    if d.hours > 0 && d.minutes > 0 then NatToString(d.hours) + "h" + " " + NatToString(d.minutes) + "m"
    else if d.hours > 0 then NatToString(d.hours) + "h"
    else if d.minutes > 0 then NatToString(d.minutes) + "m"
    else NatToString(d.seconds) + "s"
  }

  /** There is always a part, and joining the parts gives the shape. */
  lemma JoinDurationParts(d: Hms)
    ensures |DurationParts(d)| > 0
    ensures JoinWith(DurationParts(d), " ") == Shape(d)
  {
    var parts := DurationParts(d);
    if d.hours > 0 && d.minutes > 0 {
      assert parts == [NatToString(d.hours) + "h", NatToString(d.minutes) + "m"];
      assert parts[1..] == [NatToString(d.minutes) + "m"];
    }
  }

  /** The breakdown adds back up to the total, with minutes and seconds under 60. */
  lemma Decompose(t: nat)
    ensures var d := Breakdown(t);
            t == 3600 * d.hours + 60 * d.minutes + d.seconds && d.minutes < 60 && d.seconds < 60
  {
  }

  /**
   * The four shapes of the output, chosen by which of hours and minutes are
   * positive; a negative total reads as 0, and a total under a minute shows
   * all of its seconds.
   */
  lemma FormatDurationCases(n: int)
    ensures var t := if n < 0 then 0 else n;
            FormatDuration(Whole(n)) == Shape(Breakdown(t))
    ensures var t := if n < 0 then 0 else n;
            Breakdown(t).hours == 0 && Breakdown(t).minutes == 0 ==> Breakdown(t).seconds == t
  {
    var t := if n < 0 then 0 else n;
    JoinDurationParts(Breakdown(t));
    Decompose(t);
  }

  /**
   * For a number the '0s' fallback is never taken (there is always a part);
   * "0s" comes exactly from totals of at most 0.
   */
  lemma FormatDurationZero(n: int)
    ensures |DurationParts(Breakdown(if n < 0 then 0 else n))| > 0
    ensures FormatDuration(Whole(n)) == "0s" <==> n <= 0
  {
    var t := if n < 0 then 0 else n;
    var d := Breakdown(t);
    JoinDurationParts(d);
    FormatDurationCases(n);
    ShapeZero(d);
    BreakdownZero(t);
  }

  /** Only the all-zero breakdown is shown as "0s". */
  lemma ShapeZero(d: Hms)
    ensures Shape(d) == "0s" <==> d.hours == 0 && d.minutes == 0 && d.seconds == 0
  {
    var r := Shape(d);
    if d.hours > 0 || d.minutes > 0 {
      assert r[|r| - 1] != 's';
    } else if d.seconds > 0 {
      assert r[0] == NatToString(d.seconds)[0] != '0';
    } else {
      assert NatToString(0) == "0";
    }
  }

  /** The breakdown is all zero exactly for a total of 0. */
  lemma BreakdownZero(t: nat)
    ensures var d := Breakdown(t);
            d.hours == 0 && d.minutes == 0 && d.seconds == 0 <==> t == 0
  {
    Decompose(t);
  }

  /** Totals under a minute print all their seconds. */
  lemma FormatDurationUnderMinute(n: int)
    requires 0 <= n < 60
    ensures FormatDuration(Whole(n)) == NatToString(n) + "s"
  {
    FormatDurationCases(n);
  }

  // ---------------------------------------------------------------------
  // Work and break seconds of one active session
  // ---------------------------------------------------------------------

  /**
   * An active session as the command reads it: its Status, its BreakDuration
   * in whole minutes (0 when absent), the seconds since LastBreakStart (None
   * when that field is absent) and the seconds since StartTime.
   */
  datatype Session = Session(status: string, breakMinutes: int, sinceBreakStart: Option<Seconds>, elapsed: Seconds)

  /** The row pushed for one user: on break or working, and the three durations in seconds. */
  datatype StatusEntry = StatusEntry(onBreak: bool, work: Seconds, breakTime: Seconds, total: Seconds)

  /** The break seconds: the recorded minutes, plus the running break while the status is Break. */
  function BreakSeconds(session: Session): Seconds
  {
    var recorded := Whole(session.breakMinutes * 60);
    if session.status == "Break" && session.sinceBreakStart.Some? then Add(recorded, session.sinceBreakStart.value)
    else recorded
  }

  /** The entry for a member's session, or None when there is no session or it is signed out. */
  function Entry(session: Option<Session>): Option<StatusEntry>
  {
    if session.None? || session.value.status == "SignedOut" then None
    else
      var s := session.value;
      var breakTime := BreakSeconds(s);
      Some(StatusEntry(s.status == "Break", Sub(s.elapsed, breakTime), breakTime, s.elapsed))
  }

  /** Only missing and signed-out sessions are skipped. */
  lemma EntryPresence(session: Option<Session>)
    ensures Entry(session).None? <==> session.None? || session.value.status == "SignedOut"
    ensures Entry(session).Some? ==> Entry(session).value.total == session.value.elapsed &&
                                     (Entry(session).value.onBreak <==> session.value.status == "Break")
  {
  }

  /** Work and break add up to the total whenever all three are numbers. */
  lemma WorkPlusBreak(session: Session)
    requires session.status != "SignedOut"
    ensures var e := Entry(Some(session)).value;
            e.work.Whole? <==> e.breakTime.Whole? && e.total.Whole?
    ensures var e := Entry(Some(session)).value;
            e.work.Whole? ==> e.work.n + e.breakTime.n == e.total.n
  {
  }

  /** The running break counts only while on break and with a recorded start. */
  lemma BreakSecondsSpec(session: Session)
    ensures session.status == "Break" && session.sinceBreakStart.Some? && session.sinceBreakStart.value.Whole? ==>
              BreakSeconds(session) == Whole(session.breakMinutes * 60 + session.sinceBreakStart.value.n)
    ensures session.status != "Break" || session.sinceBreakStart.None? ==>
              BreakSeconds(session) == Whole(session.breakMinutes * 60)
    ensures BreakSeconds(session).NaN? <==>
              session.status == "Break" && session.sinceBreakStart == Some(NaN)
  {
  }

  // ---------------------------------------------------------------------
  // Description truncation
  // ---------------------------------------------------------------------

  // The description's length is JavaScript's: UTF-16 code units, so every
  // status emoji in it counts twice.
  const MaxLength := 4000
  /** "\n... (list truncated)", 21 code units. */
  const TruncationNotice: Utf16 :=
    [0x0A, 0x2E, 0x2E, 0x2E, 0x20, 0x28, 0x6C, 0x69, 0x73, 0x74, 0x20,
     0x74, 0x72, 0x75, 0x6E, 0x63, 0x61, 0x74, 0x65, 0x64, 0x29]

  /** The units above are the encoding of the notice's text. */
  lemma NoticeUnits()
    ensures TruncationNotice == Utf16Of("\n... (list truncated)")
  {
    BmpUnitsAre("\n... (list truncated)", TruncationNotice);
  }

  /** A description over MaxLength keeps its first MaxLength - 20 code units and gains the notice. */
  function TruncateDescription(description: Utf16): (r: Utf16)
  {
    if |description| > MaxLength then description[..MaxLength - 20] + TruncationNotice else description
  }

  /**
   * Short descriptions are unchanged; long ones keep a prefix of 3980
   * code units followed by the 21-unit notice, 4001 units in all.
   */
  lemma TruncateDescriptionSpec(description: Utf16)
    ensures |description| <= MaxLength ==> TruncateDescription(description) == description
    ensures |description| > MaxLength ==>
              var r := TruncateDescription(description);
              |r| == 4001 && r[..3980] == description[..3980] && r[3980..] == TruncationNotice
  {
    if |description| > MaxLength {
      var kept := description[..3980];
      var r := TruncateDescription(description);
      assert r == kept + TruncationNotice;
      assert r[..3980] == kept && r[3980..] == TruncationNotice;
    }
  }

  /** The truncated text is still over the limit, yet truncating it again changes nothing. */
  lemma TruncateDescriptionOverLimit(description: Utf16)
    requires |description| > MaxLength
    ensures |TruncateDescription(description)| > MaxLength
    ensures TruncateDescription(TruncateDescription(description)) == TruncateDescription(description)
  {
    var r := TruncateDescription(description);
    assert r[..MaxLength - 20] + TruncationNotice == r;
  }
}
