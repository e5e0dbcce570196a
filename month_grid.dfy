/** The month view's grid of day cells (`getDaysInMonth`). */
module MonthGrid {
  import opened Wrappers
  import opened Civil
  import opened JsDate

  /**
   * The cells of the month containing `date`: one empty cell for each
   * weekday before the 1st, then the midnight of every day of the month.
   * The year is passed back through the Date constructor, so a date in
   * years 0 to 99 yields the grid of the same month in 1900 to 1999.
   */
  method GetDaysInMonth(date: Time) returns (days: seq<Option<Time>>)
    ensures var y, m := ConstructorYear(FullYear(date)), MonthOf(date);
      var lead := Weekday(DayNumber(y, m, 1));
      |days| == lead + DaysInMonth(y, m) &&
      (forall i :: 0 <= i < lead ==> days[i] == None) &&
      (forall i :: lead <= i < |days| ==> days[i] == Some(DayNumber(y, m, i - lead + 1) * MsPerDay))
  {
    var year := FullYear(date);
    var month := MonthOf(date);
    ghost var y := ConstructorYear(year);
    var daysInMonth := LastDateOfMonth(year, month);
    var startingDayOfWeek := FirstWeekdayOfMonth(year, month);

    days := [];
    var i := 0;
    while i < startingDayOfWeek
      invariant 0 <= i <= startingDayOfWeek
      invariant |days| == i
      invariant forall j :: 0 <= j < i ==> days[j] == None
    {
      days := days + [None];
      i := i + 1;
    }

    var day := 1;
    while day <= daysInMonth
      invariant 1 <= day <= daysInMonth + 1
      invariant |days| == startingDayOfWeek + day - 1
      invariant forall j :: 0 <= j < startingDayOfWeek ==> days[j] == None
      invariant forall j :: startingDayOfWeek <= j < |days| ==> days[j] == Some(DayNumber(y, month, j - startingDayOfWeek + 1) * MsPerDay)
    {
      var cell := NewDate(year, month, day, 0, 0, 0, 0);
      MidnightInMonth(year, month, day);
      days := days + [Some(cell)];
      day := day + 1;
    }
  }

  /** `new Date(year, month + 1, 0).getDate()`: the number of days of the month. */
  method LastDateOfMonth(year: int, month: int) returns (n: int)
    requires 0 <= month < 12
    ensures n == DaysInMonth(ConstructorYear(year), month)
  {
    var y := ConstructorYear(year);
    var lastDay := NewDate(year, month + 1, 0, 0, 0, 0, 0);
    MakeDayLastOfMonth(y, month);
    CivilOfMakeDate(Ymd(y, month, DaysInMonth(y, month)), 0);
    n := DateOf(lastDay);
  }

  /** `new Date(year, month, 1).getDay()`: the weekday of the 1st of the month. */
  method FirstWeekdayOfMonth(year: int, month: int) returns (w: int)
    requires 0 <= month < 12
    ensures w == Weekday(DayNumber(ConstructorYear(year), month, 1))
  {
    var firstDay := NewDate(year, month, 1, 0, 0, 0, 0);
    MidnightInMonth(year, month, 1);
    DayOfMakeDate(DayNumber(ConstructorYear(year), month, 1), 0);
    w := WeekDay(firstDay);
  }

  /** Within a month, `new Date(year, month, d)` is the midnight of day `d` counted from the 1st. */
  lemma MidnightInMonth(year: int, month: int, d: int)
    requires 0 <= month < 12
    ensures NewDate(year, month, d, 0, 0, 0, 0) == DayNumber(ConstructorYear(year), month, d) * MsPerDay
  {
    MakeDayInMonth(ConstructorYear(year), month, d);
  }

  /**
   * The cell at grid index `lead + k` is the midnight of day `k + 1` of the
   * month, and it falls in the weekday column `(lead + k) % 7`.
   */
  lemma {:induction false} GridCell(y: int, m: int, k: int)
    requires 0 <= m < 12 && 0 <= k < DaysInMonth(y, m)
    ensures var t := DayNumber(y, m, k + 1) * MsPerDay;
      CivilOf(t) == Ymd(y, m, k + 1) &&
      TimeWithinDay(t) == 0 &&
      WeekDay(t) == (Weekday(DayNumber(y, m, 1)) + k) % 7
  {
    var z := DayNumber(y, m, k + 1);
    var t := z * MsPerDay;
    assert t == MakeDate(z, 0);
    assert CivilOf(t) == Ymd(y, m, k + 1) && TimeWithinDay(t) == 0 by {
      CivilOfMakeDate(Ymd(y, m, k + 1), 0);
    }
    assert WeekDay(t) == Weekday(z) by {
      DayOfMakeDate(z, 0);
    }
    assert z == DayNumber(y, m, 1) + k by {
      DayNumberShift(y, m, k + 1);
    }
    WeekdayShift(z, DayNumber(y, m, 1), k);
  }

  lemma WeekdayShift(z: int, base: int, k: int)
    requires z == base + k
    ensures Weekday(z) == (Weekday(base) + k) % 7
  {
    WeekdayAdd(base, k);
  }
}
