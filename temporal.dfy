/**
 * The calendar's date helpers: formatting a date as "YYYY-MM-DD" and
 * "HH:MM", day arithmetic and day/week boundaries, minutes into the day,
 * and parsing a date and a time string back into a local date.
 */
module Temporal {
  import opened Wrappers
  import opened Civil
  import opened JsDate
  import opened Text

  /** `ymdLocal(date)`: the local calendar date as "YYYY-MM-DD" (the year is not padded). */
  function YmdLocal(t: Time): string
  {
    IntToString(FullYear(t)) + "-" + Pad2(MonthOf(t) + 1) + "-" + Pad2(DateOf(t))
  }

  /** `hmLocal(date)`: the local time of day as "HH:MM". */
  function HmLocal(t: Time): (r: string)
    ensures |r| == 5 && r[2] == ':'
  {
    var h, m := Hours(t), Minutes(t);
    Pad2Length(h);
    Pad2Length(m);
    Pad2(h) + ":" + Pad2(m)
  }

  /** `minutesIntoDay(date)`: whole minutes since local midnight. */
  function MinutesIntoDay(t: Time): (r: int)
    ensures 0 <= r < 1440
    ensures r == TimeWithinDay(t) / MsPerMinute
  {
    Hours(t) * 60 + Minutes(t)
  }

  /** The date `n` calendar days after `t`, at the same time of day. */
  function DaysAfter(t: Time, n: int): Time
  {
    t + n * MsPerDay
  }

  /** Local midnight of the day holding `t`. */
  function DayStart(t: Time): Time
  {
    Day(t) * MsPerDay
  }

  /** Local midnight of the Sunday on or before `t`. */
  function WeekStart(t: Time): Time
  {
    (Day(t) - WeekDay(t)) * MsPerDay
  }

  /** `addDays(date, amount)`: copies the date and moves it with setDate. */
  method AddDays(date: Time, amount: int) returns (r: Time)
    ensures r == DaysAfter(date, amount)
  {
    var d := new DateObject(date);
    d.SetDate(d.GetDate() + amount);
    WithDateShift(date, amount);
    r := d.time;
  }

  /** `startOfDay(date)`: copies the date and zeroes its time with setHours. */
  method StartOfDay(date: Time) returns (r: Time)
    ensures r == DayStart(date)
  {
    var d := new DateObject(date);
    d.SetHours(0, 0, 0, 0);
    r := d.time;
  }

  /** `startOfWeek(date)`: zeroes the time, then steps back getDay() days with setDate. */
  method StartOfWeek(date: Time) returns (r: Time)
    ensures r == WeekStart(date)
  {
    var d := new DateObject(date);
    d.SetHours(0, 0, 0, 0);
    ghost var midnight := d.time;
    DayOfMakeDate(Day(date), 0);
    d.SetDate(d.GetDate() - d.GetDay());
    WithDateShift(midnight, -WeekDay(midnight));
    r := d.time;
  }

  /** Day start is local midnight of the same day, and doing it twice changes nothing. */
  lemma DayStartFrames(t: Time)
    ensures Day(DayStart(t)) == Day(t) && TimeWithinDay(DayStart(t)) == 0
    ensures DayStart(t) <= t < DaysAfter(DayStart(t), 1)
    ensures DayStart(DayStart(t)) == DayStart(t)
  {
    DayOfMakeDate(Day(t), 0);
  }

  /**
   * The week start is a Sunday at midnight, on or before the date and less
   * than seven days before it, and it is its own week start.
   */
  lemma WeekStartFrames(t: Time)
    ensures WeekDay(WeekStart(t)) == 0 && TimeWithinDay(WeekStart(t)) == 0
    ensures WeekStart(t) <= t < DaysAfter(WeekStart(t), 7)
    ensures WeekStart(WeekStart(t)) == WeekStart(t)
  {
    var z := Day(t) - WeekDay(t);
    DayOfMakeDate(z, 0);
    assert Weekday(z) == 0;
  }

  /** Every date of one week (Sunday to Saturday) has the same week start. */
  lemma WeekStartOfWeekDates(t: Time, i: int)
    requires 0 <= i < 7
    ensures WeekStart(DaysAfter(WeekStart(t), i)) == WeekStart(t)
  {
    var z := Day(t) - WeekDay(t);
    DayOfMakeDate(z + i, 0);
    WeekStartFrames(t);
    assert DaysAfter(WeekStart(t), i) == MakeDate(z + i, 0);
  }

  /**
   * `parseLocalDateTime(ymd, hm)`: splits "Y-M-D" on '-' and "H:M" on ':',
   * reads each piece with Number, defaults a missing month or day to 1 and a
   * missing minute to 0, and builds `new Date(y, m - 1, d, h, min, 0, 0)`.
   * None is Invalid Date: a piece that is not a number, or a time value
   * outside the range a Date can hold. Out-of-range months, days, hours and
   * minutes are not rejected; they roll over into the next unit.
   */
  function ParseLocalDateTime(ymd: string, hm: string): Option<Time>
  {
    var dateParts := Split(ymd, '-');
    var timeParts := Split(hm, ':');
    LocalDateFromFields(
      NumberOf(dateParts[0]),
      if |dateParts| > 1 then NumberOf(dateParts[1]) else Some(1),
      if |dateParts| > 2 then NumberOf(dateParts[2]) else Some(1),
      NumberOf(timeParts[0]),
      if |timeParts| > 1 then NumberOf(timeParts[1]) else Some(0))
  }

  /** `new Date(y, m - 1, d, h, min, 0, 0)` where None stands for NaN, followed by TimeClip. */
  function LocalDateFromFields(y: Option<int>, m: Option<int>, d: Option<int>, h: Option<int>, min: Option<int>): Option<Time>
  {
    if y.None? || m.None? || d.None? || h.None? || min.None? then None
    else
      var t := NewDate(y.value, m.value - 1, d.value, h.value, min.value, 0, 0);
      if InTimeRange(t) then Some(t) else None
  }

  /** The string pieces "Y-M-D" and "H:M" of given numbers split apart as expected. */
  lemma SplitFormatted(y: int, m: int, d: int, h: int, min: int)
    requires y >= 0 && m >= 0 && d >= 0 && h >= 0 && min >= 0
    ensures Split(IntToString(y) + "-" + Pad2(m) + "-" + Pad2(d), '-') == [IntToString(y), Pad2(m), Pad2(d)]
    ensures Split(Pad2(h) + ":" + Pad2(min), ':') == [Pad2(h), Pad2(min)]
  {
    IntToStringNoSeparator(y, '-');
    IntToStringNoSeparator(m, '-');
    IntToStringNoSeparator(d, '-');
    IntToStringNoSeparator(h, ':');
    IntToStringNoSeparator(min, ':');
    var ys, ms, ds := IntToString(y), Pad2(m), Pad2(d);
    assert ys + "-" + ms + "-" + ds == ys + ['-'] + (ms + ['-'] + ds);
    SplitAt(ys, '-', ms + ['-'] + ds);
    SplitAt(ms, '-', ds);
    SplitNone(ds, '-');
    assert Pad2(h) + ":" + Pad2(min) == Pad2(h) + [':'] + Pad2(min);
    SplitAt(Pad2(h), ':', Pad2(min));
    SplitNone(Pad2(min), ':');
  }

  /**
   * Parsing the strings that ymdLocal and hmLocal produce for non-negative
   * numbers reads each number back unchanged.
   */
  lemma {:induction false} ParseFormatted(y: int, m: int, d: int, h: int, min: int)
    requires y >= 0 && m >= 0 && d >= 0 && h >= 0 && min >= 0
    ensures ParseLocalDateTime(IntToString(y) + "-" + Pad2(m) + "-" + Pad2(d), Pad2(h) + ":" + Pad2(min))
      == LocalDateFromFields(Some(y), Some(m), Some(d), Some(h), Some(min))
  {
    var ys, ms, ds := IntToString(y), Pad2(m), Pad2(d);
    var hs, mins := Pad2(h), Pad2(min);
    var ymd, hm := ys + "-" + ms + "-" + ds, hs + ":" + mins;
    var p, q := Split(ymd, '-'), Split(hm, ':');
    assert p == [ys, ms, ds] && q == [hs, mins] by {
      SplitFormatted(y, m, d, h, min);
    }
    assert NumberOf(p[0]) == Some(y) by { NumberOfIntToString(y); }
    assert NumberOf(p[1]) == Some(m) by { Pad2Reads(m); }
    assert NumberOf(p[2]) == Some(d) by { Pad2Reads(d); }
    assert NumberOf(q[0]) == Some(h) by { Pad2Reads(h); }
    assert NumberOf(q[1]) == Some(min) by { Pad2Reads(min); }
  }

  /** The local date of a valid civil date and time of day, or None past the range of Date. */
  lemma LocalDateOfValid(date: Ymd, h: int, min: int)
    requires ValidYmd(date) && !(0 <= date.year <= 99)
    ensures var t := DayNumber(date.year, date.month, date.day) * MsPerDay + h * MsPerHour + min * MsPerMinute;
      LocalDateFromFields(Some(date.year), Some(date.month + 1), Some(date.day), Some(h), Some(min))
        == if InTimeRange(t) then Some(t) else None
  {
    assert date.month / 12 == 0 && date.month % 12 == date.month;
    DayNumberShift(date.year, date.month, date.day);
  }

  /**
   * Formatting a date with ymdLocal and hmLocal and parsing the two strings
   * back returns the date truncated to the minute (for years from 100 on:
   * the Date constructor reads years 0 to 99 as 1900 to 1999).
   */
  lemma {:induction false} ParseOfFormat(t: Time)
    requires FullYear(t) >= 100
    requires InTimeRange(t)
    ensures ParseLocalDateTime(YmdLocal(t), HmLocal(t)) == Some(t - t % MsPerMinute)
  {
    var c := CivilOf(t);
    var h, min := Hours(t), Minutes(t);
    assert YmdLocal(t) == IntToString(c.year) + "-" + Pad2(c.month + 1) + "-" + Pad2(c.day);
    assert HmLocal(t) == Pad2(h) + ":" + Pad2(min);
    ParseFormatted(c.year, c.month + 1, c.day, h, min);
    LocalDateOfValid(c, h, min);
    MinuteOfDay(t);
  }

  /**
   * For years from 0 on, `ymdLocal` is a key for the local day: two dates
   * give the same string exactly when they fall on the same day.
   */
  lemma YmdLocalKey(a: Time, b: Time)
    requires FullYear(a) >= 0 && FullYear(b) >= 0
    ensures YmdLocal(a) == YmdLocal(b) <==> Day(a) == Day(b)
  {
    if Day(a) == Day(b) {
      SameDaySameString(a, b);
    }
    if YmdLocal(a) == YmdLocal(b) {
      SameStringSameDay(a, b);
    }
  }

  lemma SameDaySameString(a: Time, b: Time)
    requires Day(a) == Day(b)
    ensures YmdLocal(a) == YmdLocal(b)
  {
    assert CivilOf(a) == CivilOf(b);
  }

  lemma SameStringSameDay(a: Time, b: Time)
    requires FullYear(a) >= 0 && FullYear(b) >= 0
    requires YmdLocal(a) == YmdLocal(b)
    ensures Day(a) == Day(b)
  {
    YmdLocalPieces(a);
    YmdLocalPieces(b);
    SameCivilSameDay(a, b);
  }

  /** Instants with the same year, month and day of month are on the same day. */
  lemma SameCivilSameDay(a: Time, b: Time)
    requires FullYear(a) == FullYear(b) && MonthOf(a) == MonthOf(b) && DateOf(a) == DateOf(b)
    ensures Day(a) == Day(b)
  {
    var ca, cb := FromDayNumber(Day(a)), FromDayNumber(Day(b));
    assert ca == cb;
  }

  /** The pieces of `ymdLocal` read back as the year, the month number and the day. */
  lemma YmdLocalPieces(t: Time)
    requires FullYear(t) >= 0
    ensures var p := Split(YmdLocal(t), '-');
      |p| == 3 && NumberOf(p[0]) == Some(FullYear(t)) &&
      NumberOf(p[1]) == Some(MonthOf(t) + 1) && NumberOf(p[2]) == Some(DateOf(t))
  {
    var y, m, d := FullYear(t), MonthOf(t) + 1, DateOf(t);
    assert YmdLocal(t) == IntToString(y) + "-" + Pad2(m) + "-" + Pad2(d);
    DatePieces(y, m, d);
  }

  /** The pieces of "Y-MM-DD" for non-negative numbers read back as those numbers. */
  lemma DatePieces(y: int, m: int, d: int)
    requires y >= 0 && m >= 0 && d >= 0
    ensures var p := Split(IntToString(y) + "-" + Pad2(m) + "-" + Pad2(d), '-');
      |p| == 3 && NumberOf(p[0]) == Some(y) && NumberOf(p[1]) == Some(m) && NumberOf(p[2]) == Some(d)
  {
    SplitFormatted(y, m, d, 0, 0);
    NumberOfIntToString(y);
    Pad2Reads(m);
    Pad2Reads(d);
  }

  /** Hours and minutes of a date give back its time truncated to the minute. */
  lemma MinuteOfDay(t: Time)
    ensures Day(t) * MsPerDay + Hours(t) * MsPerHour + Minutes(t) * MsPerMinute == t - t % MsPerMinute
  {
    var w := TimeWithinDay(t);
    assert Hours(t) * MsPerHour + Minutes(t) * MsPerMinute == w - w % MsPerMinute by {
      HoursMinutes(w);
    }
    assert t % MsPerMinute == w % MsPerMinute by {
      MinuteRemainder(Day(t), w);
    }
  }

  /** Whole hours and the minutes past them make up the whole minutes of a time of day. */
  lemma HoursMinutes(w: int)
    requires 0 <= w
    ensures (w / MsPerHour) * MsPerHour + ((w / MsPerMinute) % 60) * MsPerMinute == w - w % MsPerMinute
  {
    var a, r := w / MsPerMinute, w % MsPerMinute;
    var b, r' := a / 60, a % 60;
    assert w == 3600000 * b + (60000 * r' + r);
    assert 0 <= 60000 * r' + r < 3600000;
    assert w / MsPerHour == b;
  }

  /** Whole days do not change the milliseconds past the minute. */
  lemma MinuteRemainder(z: int, w: int)
    ensures (z * MsPerDay + w) % MsPerMinute == w % MsPerMinute
  {
    assert z * MsPerDay + w == MsPerMinute * (z * 1440 + w / MsPerMinute) + w % MsPerMinute;
  }
}
