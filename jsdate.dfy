/**
 * JavaScript `Date` on a single local wall clock: a date is a count of
 * milliseconds since 1970-01-01 00:00 local time. Time zones and daylight
 * saving are not modelled, so local time and the time value coincide.
 */
module JsDate {
  import opened Civil

  const MsPerSecond: int := 1000
  const MsPerMinute: int := 60000
  const MsPerHour: int := 3600000
  const MsPerDay: int := 86400000

  /** The largest magnitude of a time value a Date can hold (TimeClip). */
  const MaxTimeValue: int := 8640000000000000

  /** Milliseconds since 1970-01-01 00:00 on the local clock. */
  type Time = int

  predicate InTimeRange(t: Time)
  {
    -MaxTimeValue <= t <= MaxTimeValue
  }

  /** Day number of the day holding `t` (floor division). */
  function Day(t: Time): int
  {
    t / MsPerDay
  }

  function TimeWithinDay(t: Time): (r: int)
    ensures 0 <= r < MsPerDay
    ensures t == Day(t) * MsPerDay + r
  {
    t % MsPerDay
  }

  function CivilOf(t: Time): (r: Ymd)
    ensures ValidYmd(r)
  {
    FromDayNumber(Day(t))
  }

  /** getFullYear() */
  function FullYear(t: Time): int
  {
    CivilOf(t).year
  }

  /** getMonth(), 0-based */
  function MonthOf(t: Time): (r: int)
    ensures 0 <= r < 12
  {
    CivilOf(t).month
  }

  /** getDate(), the day of the month */
  function DateOf(t: Time): (r: int)
    ensures 1 <= r <= DaysInMonth(FullYear(t), MonthOf(t))
  {
    CivilOf(t).day
  }

  /** getDay(), 0 = Sunday */
  function WeekDay(t: Time): (r: int)
    ensures 0 <= r < 7
  {
    Weekday(Day(t))
  }

  /** getHours() */
  function Hours(t: Time): (r: int)
    ensures 0 <= r < 24
  {
    TimeWithinDay(t) / MsPerHour
  }

  /** getMinutes() */
  function Minutes(t: Time): (r: int)
    ensures 0 <= r < 60
  {
    (TimeWithinDay(t) / MsPerMinute) % 60
  }

  /**
   * MakeDay: the day number of day `date` of month `month` of `year`, where an
   * out-of-range month carries into the year and an out-of-range day into the
   * month, as JavaScript normalises them.
   */
  function MakeDay(year: int, month: int, date: int): int
  {
    DayNumber(year + month / 12, month % 12, 1) + date - 1
  }

  /** MakeTime: hours, minutes, seconds and milliseconds, any of them out of range. */
  function MakeTime(h: int, m: int, s: int, ms: int): int
  {
    h * MsPerHour + m * MsPerMinute + s * MsPerSecond + ms
  }

  function MakeDate(day: int, time: int): Time
  {
    day * MsPerDay + time
  }

  /** The Date constructor reads a year from 0 to 99 as 1900 to 1999. */
  function ConstructorYear(y: int): int
  {
    if 0 <= y <= 99 then 1900 + y else y
  }

  /** `new Date(y, m, d, h, min, s, ms)` in local time, before TimeClip. */
  function NewDate(y: int, m: int, d: int, h: int, min: int, s: int, ms: int): Time
  {
    MakeDate(MakeDay(ConstructorYear(y), m, d), MakeTime(h, min, s, ms))
  }

  /** A time built from whole hours and minutes of some day is a whole minute. */
  lemma MakeDateWholeMinute(day: int, h: int, min: int)
    ensures MakeDate(day, MakeTime(h, min, 0, 0)) % MsPerMinute == 0
  {
    assert MakeDate(day, MakeTime(h, min, 0, 0)) == MsPerMinute * (day * 1440 + h * 60 + min);
  }

  /** Value of a Date after `setHours(h, min, s, ms)`, before TimeClip. */
  function WithHours(t: Time, h: int, min: int, s: int, ms: int): Time
  {
    MakeDate(Day(t), MakeTime(h, min, s, ms))
  }

  /** Value of a Date after `setDate(date)`, before TimeClip. */
  function WithDate(t: Time, date: int): Time
  {
    MakeDate(MakeDay(FullYear(t), MonthOf(t), date), TimeWithinDay(t))
  }

  /** A time value is its day's midnight plus its time within the day. */
  lemma {:induction false} DayOfMakeDate(day: int, time: int)
    requires 0 <= time < MsPerDay
    ensures Day(MakeDate(day, time)) == day
    ensures TimeWithinDay(MakeDate(day, time)) == time
  {
    var t := MakeDate(day, time);
    assert t == day * MsPerDay + time;
    DivUnique(t, day, time);
  }

  lemma DivUnique(t: int, q: int, r: int)
    requires 0 <= r < MsPerDay && t == q * MsPerDay + r
    ensures t / MsPerDay == q && t % MsPerDay == r
  {
  }

  /** The civil date a time value reads back is the one it was built from. */
  lemma {:induction false} CivilOfMakeDate(d: Ymd, time: int)
    requires ValidYmd(d) && 0 <= time < MsPerDay
    ensures CivilOf(MakeDate(DayNumber(d.year, d.month, d.day), time)) == d
    ensures TimeWithinDay(MakeDate(DayNumber(d.year, d.month, d.day), time)) == time
  {
    DayOfMakeDate(DayNumber(d.year, d.month, d.day), time);
    FromDayNumberOfDayNumber(d);
  }

  /** setDate(getDate() + n) moves a date by exactly n days and keeps its time of day. */
  lemma {:induction false} WithDateShift(t: Time, n: int)
    ensures WithDate(t, DateOf(t) + n) == t + n * MsPerDay
  {
    var z := Day(t);
    MakeDateShift(t, n);
    assert MakeDay(FullYear(t), MonthOf(t), DateOf(t) + n) == z + n by {
      MakeDayOfCivil(CivilOf(t), z, n);
    }
  }

  lemma MakeDateShift(t: Time, n: int)
    ensures MakeDate(Day(t) + n, TimeWithinDay(t)) == t + n * MsPerDay
  {
  }

  /** Moving `n` days from a valid civil date with day number `z` gives day number `z + n`. */
  lemma MakeDayOfCivil(c: Ymd, z: int, n: int)
    requires ValidYmd(c) && DayNumber(c.year, c.month, c.day) == z
    ensures MakeDay(c.year, c.month, c.day + n) == z + n
  {
    MakeDayInMonth(c.year, c.month, c.day + n);
    DayNumberShift(c.year, c.month, c.day + n);
    DayNumberShift(c.year, c.month, c.day);
  }

  /** Within a month, `new Date(y, m, d)` is day `d` of that month counted from its 1st. */
  lemma MakeDayInMonth(y: int, m: int, d: int)
    requires 0 <= m < 12
    ensures MakeDay(y, m, d) == DayNumber(y, m, d)
  {
    assert m / 12 == 0 && m % 12 == m;
    DayNumberShift(y, m, d);
  }

  /** Day 0 of the next month is the last day of this month. */
  lemma {:induction false} MakeDayLastOfMonth(y: int, m: int)
    requires 0 <= m < 12
    ensures MakeDay(y, m + 1, 0) == DayNumber(y, m, DaysInMonth(y, m))
  {
    MonthsTile(y, m);
    DayNumberShift(y, m, DaysInMonth(y, m));
    if m == 11 {
      assert (m + 1) / 12 == 1 && (m + 1) % 12 == 0;
    } else {
      assert (m + 1) / 12 == 0 && (m + 1) % 12 == m + 1;
    }
  }

  /** A Date object, which the helpers copy and then change in place. */
  class DateObject {
    var time: Time

    /** `new Date(date)` */
    constructor (t: Time)
      ensures time == t
    {
      time := t;
    }

    function GetDate(): (r: int)
      reads this
      ensures 1 <= r <= 31
    {
      DateOf(time)
    }

    function GetDay(): (r: int)
      reads this
      ensures 0 <= r < 7
    {
      WeekDay(time)
    }

    method SetHours(h: int, min: int, s: int, ms: int)
      modifies this
      ensures time == WithHours(old(time), h, min, s, ms)
    {
      time := WithHours(time, h, min, s, ms);
    }

    method SetDate(date: int)
      modifies this
      ensures time == WithDate(old(time), date)
    {
      time := WithDate(time, date);
    }
  }
}
