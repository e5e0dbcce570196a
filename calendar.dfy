/**
 * The calendar component's state and its handlers: navigation, view
 * changes, the new-event form, and event creation and deletion.
 */
module CalendarState {
  import opened Wrappers
  import opened Civil
  import opened JsDate
  import opened Text
  import opened Temporal
  import opened Events
  import opened Window

  const TitleMissing := "Please enter a title."
  const StartInvalid := "Invalid start time."
  const EndInvalid := "Invalid end time."
  const EndNotAfterStart := "End time must be after start time."

  const DefaultGroup := "CSCW classmates"

  /** The new-event form's fields, as the form holds them. */
  datatype Draft = Draft(
    title: string,
    location: string,
    date: string,
    startTime: string,
    endTime: string,
    details: string,
    groups: seq<string>)

  /** The form as it is opened for the day `base`. */
  function DefaultDraft(base: Time): Draft
  {
    Draft("", "", YmdLocal(base), "12:00", "13:00", "", [DefaultGroup])
  }

  /** The form's text inputs. */
  datatype Field = Title | Location | Date | StartTime | EndTime | Details

  function WithField(d: Draft, f: Field, value: string): Draft
  {
    match f
    case Title => d.(title := value)
    case Location => d.(location := value)
    case Date => d.(date := value)
    case StartTime => d.(startTime := value)
    case EndTime => d.(endTime := value)
    case Details => d.(details := value)
  }

  predicate NoDuplicates(s: seq<string>)
  {
    forall i, j :: 0 <= i < j < |s| ==> s[i] != s[j]
  }

  /** `Array.from(new Set(s))`: the first occurrence of each element, in order. */
  function Dedup(s: seq<string>): (r: seq<string>)
    ensures NoDuplicates(r)
    ensures forall x :: x in r <==> x in s
  {
    if s == [] then []
    else
      var prefix := Dedup(s[..|s| - 1]);
      assert s == s[..|s| - 1] + [s[|s| - 1]];
      if s[|s| - 1] in prefix then prefix else prefix + [s[|s| - 1]]
  }

  /** A list without duplicates is its own set. */
  lemma {:induction false} DedupDistinct(s: seq<string>)
    requires NoDuplicates(s)
    ensures Dedup(s) == s
  {
    if s != [] {
      DedupDistinct(s[..|s| - 1]);
    }
  }

  /** The invite-group checkbox for `g`: checking adds it once, unchecking removes it. */
  function ToggleGroup(groups: seq<string>, g: string, checked: bool): (r: seq<string>)
    ensures checked ==> NoDuplicates(r) && forall x :: x in r <==> x in groups || x == g
    ensures !checked ==> IsSubsequence(r, groups) && forall x :: x in r <==> x in groups && x != g
  {
    if checked then Dedup(groups + [g]) else Filter(groups, x => x != g)
  }

  /** On a list without duplicates, checking a group appends it unless it is already there. */
  lemma CheckGroupAppends(groups: seq<string>, g: string)
    requires NoDuplicates(groups)
    ensures ToggleGroup(groups, g, true) == if g in groups then groups else groups + [g]
  {
    if g !in groups {
      DedupDistinct(groups + [g]);
    } else {
      DedupDistinct(groups);
      assert (groups + [g])[..|groups|] == groups;
    }
  }

  /** What `createEvent` decides about a form: the first check it fails, or the new event's fields. */
  datatype Outcome = Rejected(message: string) | Accepted(title: string, start: Time, end: Time)

  function CheckDraft(d: Draft): Outcome
  {
    CheckFields(Trim(d.title), ParseLocalDateTime(d.date, d.startTime), ParseLocalDateTime(d.date, d.endTime))
  }

  /** The checks of `createEvent` on the trimmed title and the parsed start and end. */
  function CheckFields(title: string, start: Option<Time>, end: Option<Time>): Outcome
  {
    if title == [] then Rejected(TitleMissing)
    else
      if start.None? then Rejected(StartInvalid)
      else if end.None? then Rejected(EndInvalid)
      else if end.value <= start.value then Rejected(EndNotAfterStart)
      else Accepted(title, start.value, end.value)
  }

  /**
   * A form is accepted exactly when its title is not all white space, both
   * times parse and the end is after the start; each rejection names the
   * first of those that fails.
   */
  lemma CheckDraftOutcome(d: Draft)
    ensures var r := CheckDraft(d);
      var start, end := ParseLocalDateTime(d.date, d.startTime), ParseLocalDateTime(d.date, d.endTime);
      (r.Accepted? <==> !AllSpace(d.title) && start.Some? && end.Some? && start.value < end.value) &&
      (AllSpace(d.title) ==> r == Rejected(TitleMissing)) &&
      (!AllSpace(d.title) && start.None? ==> r == Rejected(StartInvalid)) &&
      (!AllSpace(d.title) && start.Some? && end.None? ==> r == Rejected(EndInvalid)) &&
      (!AllSpace(d.title) && start.Some? && end.Some? && end.value <= start.value ==> r == Rejected(EndNotAfterStart)) &&
      (r.Accepted? ==> start == Some(r.start) && end == Some(r.end) && r.start < r.end) &&
      (r.Accepted? ==> r.title == Trim(d.title) && r.title != [])
  {
    TrimEmpty(d.title);
  }

  /** A parsed form time is a whole minute. */
  lemma ParsedWholeMinute(ymd: string, hm: string)
    requires ParseLocalDateTime(ymd, hm).Some?
    ensures ParseLocalDateTime(ymd, hm).value % MsPerMinute == 0
  {
    var p, q := Split(ymd, '-'), Split(hm, ':');
    FieldsWholeMinute(
      NumberOf(p[0]),
      if |p| > 1 then NumberOf(p[1]) else Some(1),
      if |p| > 2 then NumberOf(p[2]) else Some(1),
      NumberOf(q[0]),
      if |q| > 1 then NumberOf(q[1]) else Some(0));
  }

  lemma FieldsWholeMinute(y: Option<int>, m: Option<int>, d: Option<int>, h: Option<int>, min: Option<int>)
    requires LocalDateFromFields(y, m, d, h, min).Some?
    ensures LocalDateFromFields(y, m, d, h, min).value % MsPerMinute == 0
  {
    var day := MakeDay(ConstructorYear(y.value), m.value - 1, d.value);
    MakeDateWholeMinute(day, h.value, min.value);
  }

  /** The stored event `createEvent` builds from an accepted form. */
  function NewEvent(id: string, userId: Option<string>, d: Draft, r: Outcome): (e: Event)
    requires r.Accepted?
  {
    Event(id, userId, r.title, Trim(d.location), Trim(d.details), d.groups, r.start, r.end, "blue")
  }

  /**
   * The event an accepted form yields has a title that is neither empty
   * nor padded, trimmed location and details, and the parsed start and
   * end of the form, the end after the start.
   */
  lemma AcceptedEvent(id: string, userId: Option<string>, d: Draft)
    requires CheckDraft(d).Accepted?
    ensures var e := NewEvent(id, userId, d, CheckDraft(d));
      e.id == id && e.userId == userId &&
      e.title == Trim(d.title) && e.title != [] && !IsSpace(e.title[0]) && !IsSpace(e.title[|e.title| - 1]) &&
      e.location == Trim(d.location) && e.details == Trim(d.details) && e.inviteGroups == d.groups &&
      ParseLocalDateTime(d.date, d.startTime) == Some(e.start) &&
      ParseLocalDateTime(d.date, d.endTime) == Some(e.end) &&
      e.start < e.end && e.color == "blue"
  {
    CheckDraftOutcome(d);
    TrimEnds(d.title);
  }

  function StartsBy(k: Time): Event -> bool
  {
    (x: Event) => x.start <= k
  }

  function StartsAfter(k: Time): Event -> bool
  {
    (x: Event) => x.start > k
  }

  /**
   * Adding an event to a list sorted by start and sorting again puts it
   * after every event that starts no later than it, and before the rest.
   */
  lemma {:induction false} SortAppend(es: seq<Event>, e: Event)
    requires SortedByStart(es)
    ensures SortByStart(es + [e]) == Filter(es, StartsBy(e.start)) + [e] + Filter(es, StartsAfter(e.start))
  {
    if es == [] {
      assert es + [e] == [e] + es;
      SortCons(e, es);
    } else {
      var x, tail := es[0], es[1..];
      assert es == [x] + tail;
      assert es + [e] == [x] + (tail + [e]);
      SortCons(x, tail + [e]);
      SortedHead(es);
      if x.start <= e.start {
        SortAppend(tail, e);
        SortAppendFront(x, tail, e);
      } else {
        SortAppendBehind(x, tail, e);
      }
    }
  }

  /** An event that starts no later than the added one stays in front of it. */
  lemma SortAppendFront(x: Event, tail: seq<Event>, e: Event)
    requires SortedByStart(tail) && (forall y :: y in tail ==> x.start <= y.start) && x.start <= e.start
    requires SortByStart(tail + [e]) == Filter(tail, StartsBy(e.start)) + [e] + Filter(tail, StartsAfter(e.start))
    ensures InsertByStart(x, SortByStart(tail + [e]))
      == Filter([x] + tail, StartsBy(e.start)) + [e] + Filter([x] + tail, StartsAfter(e.start))
  {
    var low, high := Filter(tail, StartsBy(e.start)), Filter(tail, StartsAfter(e.start));
    InsertFront(x, low, e, high);
    assert ([x] + tail)[0] == x && ([x] + tail)[1..] == tail;
    FilterCons([x] + tail, StartsBy(e.start));
    FilterCons([x] + tail, StartsAfter(e.start));
  }

  /** An event that starts no later than every event of a sorted list goes in front of it. */
  lemma InsertFront(x: Event, low: seq<Event>, e: Event, high: seq<Event>)
    requires SortedByStart(low + [e] + high)
    requires x.start <= e.start && forall y :: y in low ==> x.start <= y.start
    ensures InsertByStart(x, low + [e] + high) == ([x] + low) + [e] + high
  {
    var rest := low + [e] + high;
    assert x.start <= rest[0].start by {
      if low != [] {
        assert rest[0] == low[0];
      }
    }
    assert [x] + rest == ([x] + low) + [e] + high;
  }

  /** An event that starts later than the added one goes behind it, with the rest of the list. */
  lemma SortAppendBehind(x: Event, tail: seq<Event>, e: Event)
    requires SortedByStart(tail) && (forall y :: y in tail ==> x.start <= y.start) && x.start > e.start
    ensures InsertByStart(x, SortByStart(tail + [e]))
      == Filter([x] + tail, StartsBy(e.start)) + [e] + Filter([x] + tail, StartsAfter(e.start))
  {
    SortBeforeAll(tail, e);
    InsertBehind(x, e, tail);
    forall y | y in [x] + tail
      ensures y.start > e.start
    {
      if y != x {
        assert y in tail;
      }
    }
    AllAfter([x] + tail, e.start);
    assert [] + [e] == [e];
  }

  /** When every event of a list starts after `k`, none starts by `k` and all start after it. */
  lemma AllAfter(es: seq<Event>, k: Time)
    requires forall y :: y in es ==> y.start > k
    ensures Filter(es, StartsBy(k)) == [] && Filter(es, StartsAfter(k)) == es
  {
    FilterNone(es, StartsBy(k));
    FilterAll(es, StartsAfter(k));
  }

  /** An event that starts before every event of a sorted list is sorted to the front. */
  lemma {:induction false} SortBeforeAll(es: seq<Event>, e: Event)
    requires SortedByStart(es) && forall y :: y in es ==> e.start < y.start
    ensures SortByStart(es + [e]) == [e] + es
  {
    if es == [] {
      assert es + [e] == [e] + es;
      SortCons(e, es);
    } else {
      var x, tail := es[0], es[1..];
      assert es == [x] + tail;
      assert es + [e] == [x] + (tail + [e]);
      SortedHead(es);
      SortBeforeAll(tail, e);
      SortCons(x, tail + [e]);
      InsertBehind(x, e, tail);
    }
  }

  /** An event inserted into a list whose head starts earlier goes behind that head. */
  lemma InsertBehind(x: Event, e: Event, tail: seq<Event>)
    requires SortedByStart(tail) && x.start > e.start
    requires forall y :: y in tail ==> x.start <= y.start
    ensures SortedByStart([e] + tail)
    ensures InsertByStart(x, [e] + tail) == [e] + ([x] + tail)
  {
    SortedCons(e, tail);
    assert ([e] + tail)[0] == e && ([e] + tail)[1..] == tail;
    assert tail == [] || x.start <= tail[0].start by {
      if tail != [] {
        assert tail[0] in tail;
      }
    }
  }

  /** Sorting a list with a head inserts the head into the sorted rest. */
  lemma SortCons(x: Event, rest: seq<Event>)
    ensures SortByStart([x] + rest) == InsertByStart(x, SortByStart(rest))
  {
    var xs := [x] + rest;
    assert xs[0] == x && xs[1..] == rest;
  }

  lemma {:induction false} FilterNone(es: seq<Event>, p: Event -> bool)
    requires forall x :: x in es ==> !p(x)
    ensures Filter(es, p) == []
  {
    if es != [] {
      FilterNone(es[1..], p);
    }
  }

  /** `new Date(y, m + k, 1)` for the current date's year `y` and month `m`. */
  function MonthStep(current: Time, k: int): Time
  {
    NewDate(FullYear(current), MonthOf(current) + k, 1, 0, 0, 0, 0)
  }

  /** Month navigation lands on the midnight of the 1st, `k` months away. */
  lemma MonthStepLanding(current: Time, k: int)
    ensures CivilOf(MonthStep(current, k)) ==
      Ymd(ConstructorYear(FullYear(current)) + (MonthOf(current) + k) / 12, (MonthOf(current) + k) % 12, 1)
    ensures TimeWithinDay(MonthStep(current, k)) == 0
  {
    var year := FullYear(current);
    var n := MonthOf(current) + k;
    assert MonthStep(current, k) == NewDate(year, n, 1, 0, 0, 0, 0);
    FirstOfMonth(year, n);
  }

  /** `new Date(year, n, 1)` is the midnight of the 1st of month `n` carried into the year. */
  lemma FirstOfMonth(year: int, n: int)
    ensures CivilOf(NewDate(year, n, 1, 0, 0, 0, 0)) == Ymd(ConstructorYear(year) + n / 12, n % 12, 1)
    ensures TimeWithinDay(NewDate(year, n, 1, 0, 0, 0, 0)) == 0
  {
    var y := ConstructorYear(year);
    var first := Ymd(y + n / 12, n % 12, 1);
    var z := DayNumber(first.year, first.month, first.day);
    assert NewDate(year, n, 1, 0, 0, 0, 0) == MakeDate(z, 0);
    CivilOfMakeDate(first, 0);
  }

  /** A date built with year 0 to 99 reads back as 1900 to 1999; any other year reads back as itself. */
  lemma ConstructorYearReadBack(y: int)
    ensures FullYear(NewDate(y, 0, 1, 0, 0, 0, 0)) == (if 0 <= y <= 99 then 1900 + y else y)
  {
    FirstOfMonth(y, 0);
  }

  /**
   * Outside years 0 to 99, going a month forward and then back lands on
   * the 1st of the month one started in, not on the day one started on.
   */
  lemma MonthNextThenPrevious(current: Time)
    requires !(0 <= FullYear(current) <= 99)
    requires !(0 <= FullYear(MonthStep(current, 1)) <= 99)
    ensures MonthStep(MonthStep(current, 1), -1) == MonthStep(current, 0)
  {
    var y, m := FullYear(current), MonthOf(current);
    var next := MonthStep(current, 1);
    assert FullYear(next) == y + (m + 1) / 12 && MonthOf(next) == (m + 1) % 12 by {
      MonthStepLanding(current, 1);
    }
    var y', m' := FullYear(next), MonthOf(next);
    assert MonthStep(next, -1) == NewDate(y', m' + -1, 1, 0, 0, 0, 0);
    assert MonthStep(current, 0) == NewDate(y, m + 0, 1, 0, 0, 0, 0);
    MonthBackForth(y, m, y', m');
  }

  /** The month after month `m` of year `y`, one month back, is month `m` of year `y`. */
  lemma MonthBackForth(y: int, m: int, y': int, m': int)
    requires 0 <= m < 12 && !(0 <= y <= 99) && !(0 <= y' <= 99)
    requires y' == y + (m + 1) / 12 && m' == (m + 1) % 12
    ensures NewDate(y', m' + -1, 1, 0, 0, 0, 0) == NewDate(y, m + 0, 1, 0, 0, 0, 0)
  {
    assert ConstructorYear(y') == y' && ConstructorYear(y) == y;
    assert MakeDay(y', m' + -1, 1) == MakeDay(y, m + 0, 1) by {
      if m == 11 {
        assert y' + (m' + -1) / 12 == y && (m' + -1) % 12 == 11;
      } else {
        assert y' + (m' + -1) / 12 == y && (m' + -1) % 12 == m;
      }
      assert y + (m + 0) / 12 == y && (m + 0) % 12 == m;
    }
  }

  /** The number of days the week and day views step by. */
  function StepDays(view: View): int
  {
    if view == WeekView then 7 else 1
  }

  /** `prev ? addDays(prev, n) : prev` */
  function ShiftSelected(selected: Option<Time>, n: int): Option<Time>
  {
    if selected.Some? then Some(DaysAfter(selected.value, n)) else None
  }

  /** The id is usable for storage exactly when the user has one that is not empty. */
  predicate HasUserId(userId: Option<string>)
  {
    userId.Some? && userId.value != ""
  }

  class Calendar {
    const userId: Option<string>
    var currentDate: Time
    var selectedDate: Option<Time>
    var view: View
    var events: seq<Event>
    var eventModalOpen: bool
    var draft: Draft
    var eventError: string

    /**
     * The component's initial state. `today` is the clock's reading,
     * `storedView` the stored view name, and `storedEvents` the stored list
     * when one exists and reads back as a list.
     */
    constructor (userId: Option<string>, today: Time, storedView: Option<string>, storedEvents: Option<seq<Event>>)
      ensures this.userId == userId
      ensures currentDate == today && selectedDate == None
      ensures view == ViewFromStored(storedView)
      ensures events == if HasUserId(userId) then storedEvents.GetOr([]) else []
      ensures !eventModalOpen && eventError == ""
      ensures draft == DefaultDraft(today)
    {
      this.userId := userId;
      currentDate := today;
      selectedDate := None;
      view := ViewFromStored(storedView);
      events := if HasUserId(userId) then storedEvents.GetOr([]) else [];
      eventModalOpen := false;
      draft := DefaultDraft(today);
      eventError := "";
    }

    /** `goToPrevious` */
    method GoToPrevious()
      modifies this`currentDate, this`selectedDate
      ensures view == MonthView ==> currentDate == MonthStep(old(currentDate), -1) && selectedDate == old(selectedDate)
      ensures view != MonthView ==>
        currentDate == DaysAfter(old(currentDate), -StepDays(view)) &&
        selectedDate == ShiftSelected(old(selectedDate), -StepDays(view))
    {
      if view == MonthView {
        currentDate := NewDate(FullYear(currentDate), MonthOf(currentDate) - 1, 1, 0, 0, 0, 0);
        return;
      }
      var delta := if view == WeekView then -7 else -1;
      currentDate := AddDays(currentDate, delta);
      if selectedDate.Some? {
        var s := AddDays(selectedDate.value, delta);
        selectedDate := Some(s);
      }
    }

    /** `goToNext` */
    method GoToNext()
      modifies this`currentDate, this`selectedDate
      ensures view == MonthView ==> currentDate == MonthStep(old(currentDate), 1) && selectedDate == old(selectedDate)
      ensures view != MonthView ==>
        currentDate == DaysAfter(old(currentDate), StepDays(view)) &&
        selectedDate == ShiftSelected(old(selectedDate), StepDays(view))
    {
      if view == MonthView {
        currentDate := NewDate(FullYear(currentDate), MonthOf(currentDate) + 1, 1, 0, 0, 0, 0);
        return;
      }
      var delta := if view == WeekView then 7 else 1;
      currentDate := AddDays(currentDate, delta);
      if selectedDate.Some? {
        var s := AddDays(selectedDate.value, delta);
        selectedDate := Some(s);
      }
    }

    /** `goToToday`; `today` is the clock's reading. */
    method GoToToday(today: Time)
      modifies this`currentDate, this`selectedDate
      ensures currentDate == today && selectedDate == Some(today)
    {
      currentDate := today;
      selectedDate := Some(today);
    }

    /** `handleDateClick`: a click on an empty month cell changes nothing. */
    method HandleDateClick(date: Option<Time>)
      modifies this`currentDate, this`selectedDate
      ensures date.Some? ==> currentDate == date.value && selectedDate == date
      ensures date.None? ==> currentDate == old(currentDate) && selectedDate == old(selectedDate)
    {
      if date.Some? {
        selectedDate := date;
        currentDate := date.value;
      }
    }

    /** `handleViewChange`: the week and day views select the current date when nothing is selected. */
    method HandleViewChange(next: View)
      modifies this`view, this`selectedDate
      ensures view == next
      ensures selectedDate == if next != MonthView && old(selectedDate).None? then Some(currentDate) else old(selectedDate)
    {
      view := next;
      if (next == WeekView || next == DayView) && selectedDate.None? {
        selectedDate := Some(currentDate);
      }
    }

    /** `openCreateEvent`: a fresh form for the selected day, or the current one. */
    method OpenCreateEvent()
      modifies this`draft, this`eventError, this`eventModalOpen
      ensures draft == DefaultDraft(FocusDay(old(currentDate), old(selectedDate)))
      ensures eventError == "" && eventModalOpen
    {
      var base := FocusDay(currentDate, selectedDate);
      draft := DefaultDraft(base);
      eventError := "";
      eventModalOpen := true;
    }

    /** A text input of the form changes its field. */
    method EditField(f: Field, value: string)
      modifies this`draft
      ensures draft == WithField(old(draft), f, value)
    {
      draft := WithField(draft, f, value);
    }

    /** An invite-group checkbox changes. */
    method ToggleDraftGroup(g: string, checked: bool)
      modifies this`draft
      ensures draft == old(draft).(groups := ToggleGroup(old(draft).groups, g, checked))
    {
      draft := draft.(groups := ToggleGroup(draft.groups, g, checked));
    }

    /** The close and Cancel buttons. */
    method CloseModal()
      modifies this`eventModalOpen
      ensures !eventModalOpen
    {
      eventModalOpen := false;
    }

    /**
     * `createEvent`, with `id` standing for the generated id: the form's
     * checks run in order (CheckDraft); a rejected form only shows its
     * message, an accepted one adds the event, keeps the list sorted by
     * start, and closes the form.
     */
    method CreateEvent(id: string)
      modifies this`events, this`eventError, this`eventModalOpen
      ensures CheckDraft(old(draft)).Rejected? ==>
        events == old(events) && eventError == CheckDraft(old(draft)).message && eventModalOpen == old(eventModalOpen)
      ensures var r := CheckDraft(old(draft));
        r.Accepted? ==>
          events == SortByStart(old(events) + [NewEvent(id, userId, old(draft), r)]) &&
          SortedByStart(events) && |events| == |old(events)| + 1 &&
          multiset(events) == multiset(old(events)) + multiset{NewEvent(id, userId, old(draft), r)} &&
          eventError == "" && !eventModalOpen
    {
      var outcome := CheckDraft(draft);
      assert outcome == CheckDraft(old(draft));
      match outcome {
        case Rejected(message) =>
          eventError := message;
        case Accepted(_, _, _) =>
          var e := NewEvent(id, userId, draft, outcome);
          events := SortByStart(events + [e]);
          eventModalOpen := false;
          eventError := "";
      }
    }

    /** `deleteEvent`: removes every event with the id and keeps the rest in order. */
    method DeleteEvent(id: string)
      modifies this`events
      ensures events == WithoutId(old(events), id)
      ensures SortedByStart(old(events)) ==> SortedByStart(events)
    {
      if SortedByStart(events) {
        WithoutIdSorted(events, id);
      }
      events := WithoutId(events, id);
    }
  }

  /** In the week and day views, going forward and then back restores the current and selected dates. */
  method NextThenPrevious(c: Calendar)
    requires c.view != MonthView
    modifies c
    ensures c.currentDate == old(c.currentDate) && c.selectedDate == old(c.selectedDate)
  {
    c.GoToNext();
    c.GoToPrevious();
  }
}
