/** Optional values: a JavaScript `undefined` becomes `None`. */
module Options {

  datatype Option<T> = None | Some(value: T)
}

/**
 Wall-clock times of day, the "HH:MM" text form the slot catalog uses, and the
 ambient clock of the browser made explicit.
 */
module Time {
  import opened Options

  const MsPerMinute: int := 60_000
  const MsPerHour: int := 3_600_000
  const MsPerDay: int := 86_400_000

  /** A time of day as an hour and a minute. */
  datatype TimeOfDay = TimeOfDay(hour: int, minute: int) {

    predicate Valid() {
      0 <= hour < 24 && 0 <= minute < 60
    }

    /** Minutes elapsed since midnight. */
    function Minutes(): int {
      hour * 60 + minute
    }
  }

  predicate IsDigit(c: char) {
    '0' <= c <= '9'
  }

  function DigitValue(c: char): (n: nat)
    requires IsDigit(c)
    ensures n < 10
  {
    (c as int) - ('0' as int)
  }

  function DigitChar(n: nat): (c: char)
    requires n < 10
    ensures IsDigit(c) && DigitValue(c) == n
  {
    (('0' as int) + n) as char
  }

  /** The two-digit numeral at positions i and i+1 of s. */
  function TwoDigits(s: string, i: nat): (n: nat)
    requires i + 1 < |s| && IsDigit(s[i]) && IsDigit(s[i + 1])
    ensures n < 100
  {
    10 * DigitValue(s[i]) + DigitValue(s[i + 1])
  }

  /**
   Splits a zero-padded "HH:MM" string at its colon and reads both halves as
   numbers. Anything else (wrong length, a non-digit, an hour past 23 or a
   minute past 59) has no time of day.
   */
  function ParseTime(s: string): (r: Option<TimeOfDay>)
    ensures r.Some? ==> r.value.Valid()
    ensures r.Some? ==> |s| == 5 && s[2] == ':'
  {
    if |s| == 5 && IsDigit(s[0]) && IsDigit(s[1]) && s[2] == ':' && IsDigit(s[3]) && IsDigit(s[4]) then
      var t := TimeOfDay(TwoDigits(s, 0), TwoDigits(s, 3));
      if t.Valid() then Some(t) else None
    else
      None
  }

  /** The zero-padded "HH:MM" text of a time of day. */
  function FormatTime(t: TimeOfDay): (s: string)
    requires t.Valid()
    ensures |s| == 5 && s[2] == ':'
  {
    [DigitChar(t.hour / 10), DigitChar(t.hour % 10), ':', DigitChar(t.minute / 10), DigitChar(t.minute % 10)]
  }

  /** Formatting a valid time and parsing it back gives the same time. */
  lemma ParseFormat(t: TimeOfDay)
    requires t.Valid()
    ensures ParseTime(FormatTime(t)) == Some(t)
  {
    var s := FormatTime(t);
    assert TwoDigits(s, 0) == t.hour;
    assert TwoDigits(s, 3) == t.minute;
  }

  /** Every string that parses is the formatted text of its time. */
  lemma FormatParse(s: string)
    requires ParseTime(s).Some?
    ensures FormatTime(ParseTime(s).value) == s
  {
    var t := ParseTime(s).value;
    var f := FormatTime(t);
    assert t.hour == TwoDigits(s, 0);
    assert t.minute == TwoDigits(s, 3);
    assert DigitChar(t.hour / 10) == s[0] by {
      assert (s[0] as int) - ('0' as int) == t.hour / 10;
    }
    assert DigitChar(t.hour % 10) == s[1] by {
      assert (s[1] as int) - ('0' as int) == t.hour % 10;
    }
    assert DigitChar(t.minute / 10) == s[3] by {
      assert (s[3] as int) - ('0' as int) == t.minute / 10;
    }
    assert DigitChar(t.minute % 10) == s[4] by {
      assert (s[4] as int) - ('0' as int) == t.minute % 10;
    }
    assert f == s;
  }

  /** Two strings that parse to the same time are the same string. */
  lemma ParseInjective(a: string, b: string)
    requires ParseTime(a).Some? && ParseTime(a) == ParseTime(b)
    ensures a == b
  {
    FormatParse(a);
    FormatParse(b);
  }

  /**
   What the availability filter observes of the browser clock: the instant
   `new Date()` returns (a calendar day and the milliseconds into it) and how
   many milliseconds later `isPast` reads the clock again.
   */
  datatype Clock = Clock(day: int, msOfDay: int, lagMs: nat) {

    predicate Valid() {
      0 <= msOfDay < MsPerDay
    }

    /** The minute of the day of the first reading. */
    function Minute(): int {
      msOfDay / MsPerMinute
    }
  }

  /**
   `isToday(day)`: the day is the calendar day of the clock, that is, the
   clock's first reading falls inside that day.
   */
  function IsToday(day: int, now: Clock): (today: bool)
    ensures now.Valid() ==>
              (today <==> day * MsPerDay <= now.day * MsPerDay + now.msOfDay < (day + 1) * MsPerDay)
  {
    day == now.day
  }

  /**
   `isPast(set(new Date(), {hours, minutes}))`: the slot is placed on today's
   date with the seconds and milliseconds of the first reading kept, and is
   past when that instant is strictly before the second reading. Only the
   slot's minute, the clock's minute and the lag between the readings matter.
   */
  function IsPastToday(t: TimeOfDay, now: Clock): (past: bool)
    ensures now.Valid() ==> (past <==> (t.Minutes() - now.Minute()) * MsPerMinute < now.lagMs)
  {
    var slot := now.day * MsPerDay + t.hour * MsPerHour + t.minute * MsPerMinute + now.msOfDay % MsPerMinute;
    var later := now.day * MsPerDay + now.msOfDay + now.lagMs;
    assert now.msOfDay == now.Minute() * MsPerMinute + now.msOfDay % MsPerMinute;
    assert t.hour * MsPerHour + t.minute * MsPerMinute == t.Minutes() * MsPerMinute;
    slot < later
  }

  /**
   A slot whose minute is strictly before the clock's minute is past; one
   strictly after it is not, as long as the two clock readings are less than
   a minute apart; on the clock's own minute the answer depends only on
   whether the second reading came later than the first.
   */
  lemma PastSlots(t: TimeOfDay, now: Clock)
    requires now.Valid()
    ensures t.Minutes() < now.Minute() ==> IsPastToday(t, now)
    ensures t.Minutes() > now.Minute() && now.lagMs < MsPerMinute ==> !IsPastToday(t, now)
    ensures t.Minutes() == now.Minute() ==> (IsPastToday(t, now) <==> now.lagMs > 0)
  {
    var d := t.Minutes() - now.Minute();
    if d < 0 {
      assert d * MsPerMinute <= -MsPerMinute;
    } else if d > 0 {
      assert d * MsPerMinute >= MsPerMinute;
    }
  }
}
