/**
 * The calendar's view modes, the time window each mode shows, and the
 * events that fall in that window and in each day of it.
 */
module Window {
  import opened Wrappers
  import opened Civil
  import opened JsDate
  import opened Temporal
  import opened Events

  datatype View = MonthView | WeekView | DayView

  /** The name under which a view is stored. */
  function ViewName(v: View): string
  {
    match v
    case MonthView => "month"
    case WeekView => "week"
    case DayView => "day"
  }

  /** The initial view: the stored name if it names a view, otherwise month. */
  function ViewFromStored(stored: Option<string>): (v: View)
    ensures v == WeekView <==> stored == Some("week")
    ensures v == DayView <==> stored == Some("day")
  {
    if stored == Some("week") then WeekView
    else if stored == Some("day") then DayView
    else MonthView
  }

  /** A stored view name reads back as the view it names. */
  lemma StoredViewRoundTrip(v: View)
    ensures ViewFromStored(Some(ViewName(v))) == v
  {
  }

  /** `selectedDate ?? currentDate`: the day the day view shows. */
  function FocusDay(current: Time, selected: Option<Time>): Time
  {
    selected.GetOr(current)
  }

  /** `visibleStart` */
  function VisibleStart(view: View, current: Time, selected: Option<Time>): Time
  {
    match view
    case MonthView => NewDate(FullYear(current), MonthOf(current), 1, 0, 0, 0, 0)
    case WeekView => WeekStart(current)
    case DayView => DayStart(FocusDay(current, selected))
  }

  /** `visibleEnd` */
  function VisibleEnd(view: View, current: Time, selected: Option<Time>): Time
  {
    match view
    case MonthView => NewDate(FullYear(current), MonthOf(current) + 1, 0, 23, 59, 59, 999)
    case WeekView => DaysAfter(WeekStart(current), 7)
    case DayView => DaysAfter(DayStart(FocusDay(current, selected)), 1)
  }

  /**
   * The month window runs from the midnight of the 1st to the last
   * millisecond of the last day of the month (of the year the Date
   * constructor reads back).
   */
  lemma {:induction false} MonthWindow(current: Time, selected: Option<Time>)
    ensures var y, m := ConstructorYear(FullYear(current)), MonthOf(current);
      VisibleStart(MonthView, current, selected) == DayNumber(y, m, 1) * MsPerDay &&
      VisibleEnd(MonthView, current, selected) == DaysAfter(DayNumber(y, m, 1) * MsPerDay, DaysInMonth(y, m)) - 1
  {
    var y, m := ConstructorYear(FullYear(current)), MonthOf(current);
    MakeDayInMonth(y, m, 1);
    MakeDayLastOfMonth(y, m);
    DayNumberShift(y, m, DaysInMonth(y, m));
  }

  /** An instant lies in the month window exactly when it falls in that month. */
  lemma {:induction false} MonthWindowMembers(current: Time, selected: Option<Time>, t: Time)
    ensures var y, m := ConstructorYear(FullYear(current)), MonthOf(current);
      var inWindow := VisibleStart(MonthView, current, selected) <= t <= VisibleEnd(MonthView, current, selected);
      inWindow <==> FullYear(t) == y && MonthOf(t) == m
  {
    var y, m := ConstructorYear(FullYear(current)), MonthOf(current);
    var first, n := DayNumber(y, m, 1), DaysInMonth(y, m);
    assert VisibleStart(MonthView, current, selected) == first * MsPerDay &&
      VisibleEnd(MonthView, current, selected) == (first + n) * MsPerDay - 1 by {
      MonthWindow(current, selected);
    }
    DayRange(t, first, first + n);
    DaysOfMonth(y, m, Day(t));
  }

  /** An instant lies between two midnights exactly when its day lies between their days. */
  lemma DayRange(t: Time, a: int, b: int)
    ensures a * MsPerDay <= t <= b * MsPerDay - 1 <==> a <= Day(t) < b
  {
    DayOfMakeDate(Day(t), TimeWithinDay(t));
  }

  /** The days of a month are the day numbers from its 1st up to its length later. */
  lemma DaysOfMonth(y: int, m: int, z: int)
    requires 0 <= m < 12
    ensures var first := DayNumber(y, m, 1);
      first <= z < first + DaysInMonth(y, m) <==> FromDayNumber(z).year == y && FromDayNumber(z).month == m
  {
    var c := FromDayNumber(z);
    if c.year == y && c.month == m {
      DayOfMonthInRange(y, m, z);
    }
    var first := DayNumber(y, m, 1);
    if first <= z < first + DaysInMonth(y, m) {
      DayInRangeOfMonth(y, m, z);
    }
  }

  /** A day whose date lies in month `m` of year `y` lies between that month's bounds. */
  lemma DayOfMonthInRange(y: int, m: int, z: int)
    requires 0 <= m < 12 && FromDayNumber(z).year == y && FromDayNumber(z).month == m
    ensures DayNumber(y, m, 1) <= z < DayNumber(y, m, 1) + DaysInMonth(y, m)
  {
    var c := FromDayNumber(z);
    DayNumberShift(y, m, c.day);
  }

  /** A day between a month's bounds has its date in that month. */
  lemma DayInRangeOfMonth(y: int, m: int, z: int)
    requires 0 <= m < 12 && DayNumber(y, m, 1) <= z < DayNumber(y, m, 1) + DaysInMonth(y, m)
    ensures FromDayNumber(z).year == y && FromDayNumber(z).month == m
  {
    var d := z - DayNumber(y, m, 1) + 1;
    DayNumberShift(y, m, d);
    FromDayNumberOfDayNumber(Ymd(y, m, d));
  }

  /** Outside years 0 to 99 the month window holds the current date. */
  lemma MonthWindowHoldsCurrent(current: Time, selected: Option<Time>)
    requires !(0 <= FullYear(current) <= 99)
    ensures VisibleStart(MonthView, current, selected) <= current <= VisibleEnd(MonthView, current, selected)
  {
    MonthWindowMembers(current, selected, current);
  }

  /** The week window is the seven whole days from the Sunday midnight on or before the current date. */
  lemma WeekWindow(current: Time, selected: Option<Time>)
    ensures var lo, hi := VisibleStart(WeekView, current, selected), VisibleEnd(WeekView, current, selected);
      WeekDay(lo) == 0 && TimeWithinDay(lo) == 0 && hi - lo == 7 * MsPerDay && lo <= current < hi
  {
    WeekStartFrames(current);
  }

  /** The day window is the whole day of the selected date, or of the current one when none is selected. */
  lemma DayWindow(current: Time, selected: Option<Time>)
    ensures var lo, hi := VisibleStart(DayView, current, selected), VisibleEnd(DayView, current, selected);
      var focus := if selected.Some? then selected.value else current;
      Day(lo) == Day(focus) && TimeWithinDay(lo) == 0 && hi - lo == MsPerDay && lo <= focus < hi
  {
    DayStartFrames(FocusDay(current, selected));
  }

  /** `eventsInRange`: the events overlapping the visible window. */
  function EventsInRange(view: View, current: Time, selected: Option<Time>, events: seq<Event>): seq<Event>
  {
    Overlapping(events, VisibleStart(view, current, selected), VisibleEnd(view, current, selected))
  }

  /** `eventsForDay(date)`: the events overlapping the day of `date`, by start time. */
  function EventsForDay(inRange: seq<Event>, date: Time): seq<Event>
  {
    SortByStart(Overlapping(inRange, DayStart(date), DaysAfter(DayStart(date), 1)))
  }

  /**
   * A day's list holds exactly the events that overlap that day, each as
   * often as in the input, sorted by start, with events of equal start in
   * their input order.
   */
  lemma EventsForDayContents(inRange: seq<Event>, date: Time)
    ensures var r := EventsForDay(inRange, date);
      var lo, hi := DayStart(date), DaysAfter(DayStart(date), 1);
      SortedByStart(r) &&
      (forall e :: e in r <==> e in inRange && e.end > lo && e.start < hi) &&
      (forall e :: multiset(r)[e] == if e.end > lo && e.start < hi then multiset(inRange)[e] else 0) &&
      (forall k :: Filter(r, StartsAt(k)) == Filter(Overlapping(inRange, lo, hi), StartsAt(k)))
  {
    var lo, hi := DayStart(date), DaysAfter(DayStart(date), 1);
    var f := Overlapping(inRange, lo, hi);
    assert multiset(SortByStart(f)) == multiset(f);
    forall k ensures Filter(SortByStart(f), StartsAt(k)) == Filter(f, StartsAt(k)) {
      SortStable(f, k);
    }
  }

  /** An event from 23:30 to 00:30 of the next day is listed on both days. */
  lemma AcrossMidnight(inRange: seq<Event>, e: Event, date: Time)
    requires e in inRange
    requires e.start == DayStart(date) + 23 * MsPerHour + 30 * MsPerMinute
    requires e.end == e.start + MsPerHour
    ensures e in EventsForDay(inRange, date)
    ensures e in EventsForDay(inRange, DaysAfter(date, 1))
  {
    DayStartShift(date, 1);
    EventsForDayContents(inRange, date);
    EventsForDayContents(inRange, DaysAfter(date, 1));
  }

  lemma DayStartShift(t: Time, n: int)
    ensures DayStart(DaysAfter(t, n)) == DaysAfter(DayStart(t), n)
  {
    var w := TimeWithinDay(t);
    DayOfMakeDate(Day(t) + n, w);
  }

  /** `weekDates`: the seven days of the week shown, Sunday first. */
  function WeekDates(current: Time): (r: seq<Time>)
    ensures |r| == 7
    ensures forall i :: 0 <= i < 7 ==> WeekDay(r[i]) == i && TimeWithinDay(r[i]) == 0
    ensures forall i :: 0 <= i < 7 ==> DayStart(r[i]) == r[i]
    ensures forall i :: 0 <= i < 7 ==> WeekStart(current) <= r[i] && DaysAfter(r[i], 1) <= DaysAfter(WeekStart(current), 7)
  {
    var r := seq(7, i requires 0 <= i < 7 => DaysAfter(WeekStart(current), i));
    forall i | 0 <= i < 7 ensures WeekDay(r[i]) == i && TimeWithinDay(r[i]) == 0 && DayStart(r[i]) == r[i] {
      WeekDateFrames(current, i);
    }
    r
  }

  lemma WeekDateFrames(current: Time, i: int)
    requires 0 <= i < 7
    ensures var t := DaysAfter(WeekStart(current), i);
      WeekDay(t) == i && TimeWithinDay(t) == 0 && DayStart(t) == t
  {
    WeekStartFrames(current);
    var z := Day(WeekStart(current));
    assert WeekStart(current) == z * MsPerDay + 0;
    DayOfMakeDate(z + i, 0);
    assert Weekday(z) == 0;
    assert Weekday(z + i) == i;
  }

  /** Narrowing to the week window first loses no event from any of the week's seven columns. */
  lemma WeekColumnsLoseNothing(current: Time, selected: Option<Time>, events: seq<Event>, i: int)
    requires 0 <= i < 7
    ensures var date := WeekDates(current)[i];
      EventsForDay(EventsInRange(WeekView, current, selected, events), date) == EventsForDay(events, date)
  {
    var date := WeekDates(current)[i];
    OverlappingNarrow(events, WeekStart(current), DaysAfter(WeekStart(current), 7), DayStart(date), DaysAfter(DayStart(date), 1));
  }

  /** Narrowing to the day window first loses no event from the day view's column. */
  lemma DayColumnLosesNothing(current: Time, selected: Option<Time>, events: seq<Event>)
    ensures var date := FocusDay(current, selected);
      EventsForDay(EventsInRange(DayView, current, selected, events), date) == EventsForDay(events, date)
  {
    var date := FocusDay(current, selected);
    DayStartFrames(date);
    OverlappingNarrow(events, DayStart(date), DaysAfter(DayStart(date), 1), DayStart(date), DaysAfter(DayStart(date), 1));
  }

  /**
   * The month window's end is exclusive: an event that starts in the last
   * millisecond of the month is missing from month mode's `eventsInRange`
   * list, although it overlaps that month's last day. The month grid does
   * not draw that list.
   */
  lemma MonthWindowDropsLastMillisecond(current: Time, selected: Option<Time>, events: seq<Event>, e: Event)
    requires e in events
    requires e.start == VisibleEnd(MonthView, current, selected) && e.end > e.start
    ensures e !in EventsInRange(MonthView, current, selected, events)
    ensures e in EventsForDay(events, e.start)
  {
    DayStartFrames(e.start);
    EventsForDayContents(events, e.start);
  }

  /** An event whose start is a whole minute is in the month window exactly when it overlaps the month. */
  lemma MonthWindowWholeMinutes(current: Time, selected: Option<Time>, e: Event)
    requires e.start % MsPerMinute == 0
    ensures var lo, hi := VisibleStart(MonthView, current, selected), VisibleEnd(MonthView, current, selected);
      Overlaps(e, lo, hi) <==> Overlaps(e, lo, hi + 1)
  {
    var y, m := ConstructorYear(FullYear(current)), MonthOf(current);
    var z := DayNumber(y, m, 1) + DaysInMonth(y, m);
    assert VisibleEnd(MonthView, current, selected) == z * MsPerDay - 1 by {
      MonthWindow(current, selected);
    }
    MinuteNotBeforeMidnight(e.start, z);
  }

  /**
   * Month windows tile time: the instant after one month window ends is
   * where the next month's window starts (outside years 0 to 99).
   */
  lemma MonthWindowsTile(current: Time, selected: Option<Time>, selected': Option<Time>)
    requires !(0 <= FullYear(current) <= 99)
    ensures var next := VisibleEnd(MonthView, current, selected) + 1;
      !(0 <= FullYear(next) <= 99) ==> VisibleStart(MonthView, next, selected') == next
  {
    var y, m := FullYear(current), MonthOf(current);
    var z := DayNumber(y, m, 1) + DaysInMonth(y, m);
    var next := VisibleEnd(MonthView, current, selected) + 1;
    assert next == MakeDate(z, 0) by {
      MonthWindow(current, selected);
    }
    var c := NextMonthOf(y, m, z);
    CivilOfMakeDate(c, 0);
    assert FullYear(next) == c.year && MonthOf(next) == c.month;
    if !(0 <= c.year <= 99) {
      MonthWindow(next, selected');
    }
  }

  /** The 1st of the month after month `m` of year `y`, whose day number is `z`. */
  lemma NextMonthOf(y: int, m: int, z: int) returns (c: Ymd)
    requires 0 <= m < 12 && z == DayNumber(y, m, 1) + DaysInMonth(y, m)
    ensures ValidYmd(c) && c.day == 1 && DayNumber(c.year, c.month, c.day) == z
  {
    MonthsTile(y, m);
    c := if m == 11 then Ymd(y + 1, 0, 1) else Ymd(y, m + 1, 1);
  }

  /** A whole minute is never the last millisecond before a midnight. */
  lemma MinuteNotBeforeMidnight(t: Time, z: int)
    requires t % MsPerMinute == 0
    ensures t != z * MsPerDay - 1
  {
    assert z * MsPerDay - 1 == MsPerMinute * (z * 1440 - 1) + 59999;
  }

  /** `date.getDate() === other.getDate() && …getMonth… && …getFullYear…` */
  predicate SameDate(a: Time, b: Time)
  {
    DateOf(a) == DateOf(b) && MonthOf(a) == MonthOf(b) && FullYear(a) == FullYear(b)
  }

  /** Two instants show the same date exactly when they fall on the same day. */
  lemma SameDateIsSameDay(a: Time, b: Time)
    ensures SameDate(a, b) <==> Day(a) == Day(b)
  {
    if SameDate(a, b) {
      assert CivilOf(a) == CivilOf(b);
    }
  }

  /** `isToday(date)`; `today` stands for the clock's current instant. */
  predicate IsToday(date: Option<Time>, today: Time)
  {
    date.Some? && SameDate(date.value, today)
  }

  /** A cell is marked as today exactly when it is on the same local day as the clock's reading. */
  lemma IsTodayDay(date: Option<Time>, today: Time)
    ensures IsToday(date, today) <==> date.Some? && Day(date.value) == Day(today)
  {
    if date.Some? {
      SameDateIsSameDay(date.value, today);
    }
  }

  /** `isSelected(date)` */
  predicate IsSelected(date: Option<Time>, selected: Option<Time>)
  {
    date.Some? && selected.Some? && SameDate(date.value, selected.value)
  }

  /** A cell is highlighted as selected exactly when it is on the selected day. */
  lemma IsSelectedDay(date: Option<Time>, selected: Option<Time>)
    ensures IsSelected(date, selected) <==> date.Some? && selected.Some? && DayStart(date.value) == DayStart(selected.value)
  {
    if date.Some? && selected.Some? {
      SameDateIsSameDay(date.value, selected.value);
    }
  }
}
