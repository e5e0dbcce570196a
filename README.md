# Calendar engine of imdown, in Dafny

This project models the calendar engine of the imdown web app: the logic of
the `Calendar` React component in `imdown/src/components/Calendar.jsx`. It
covers the date helpers, the month grid, the visible window of each view
with its event filters, the placement of event blocks in the week and day
columns, and the component's state with its handlers. It then proves what
the component promises about them.

The modules follow the program's layers.

- `Civil` holds the proleptic Gregorian calendar that JavaScript's `Date`
  uses: leap years, month lengths (0-based month index), and the conversion
  between a civil date and a day number counted from 1970-01-01, in both
  directions, with the round trip proved.
- `JsDate` models the part of `Date` the component relies on:
  - an instant is an integer count of milliseconds on the local wall clock;
  - getters `getFullYear`, `getMonth`, `getDate`, `getDay`, `getHours` and
    `getMinutes`;
  - the multi-argument constructor, with the normalisation of overflowing
    months, days, hours and minutes that MakeDay/MakeTime perform, and the
    rule that reads years 0 to 99 as 1900 to 1999;
  - a `DateObject` class whose `SetHours` and `SetDate` update a copied date
    in place.
- `Text` models `trim`, `split` on one character, `Number(...)` on a string,
  `String(n)` and `padStart(2, '0')`.
- `Temporal` models `pad2`, `ymdLocal`, `hmLocal`, `addDays`,
  `minutesIntoDay`, `startOfWeek`, `startOfDay` and `parseLocalDateTime`.
  The three date-copying helpers are methods over a `DateObject`, proved
  against pure specification functions.
- `Events` holds the event record, `filter`, and the stable sort by start.
- `MonthGrid` models `getDaysInMonth` as a method with its two `push` loops.
- `Window` models the view modes, `visibleStart`/`visibleEnd`,
  `eventsInRange`, `eventsForDay`, `weekDates`, `isToday` and `isSelected`.
- `Layout` models the `top`/`height` geometry of a block in a day column,
  in exact `real` arithmetic.
- `CalendarState` holds the form, its validation chain, and the `Calendar`
  class. The class's fields are the component's state, and its methods are
  the handlers that update them.

Some behaviours of the code are worth stating outright:

- `parseLocalDateTime` does not reject a month 13 or a day 32. The `Date`
  constructor rolls them over into the next year or month. The only
  rejections are a piece that is not a number, and a time outside the
  range a `Date` can hold.
- The month window ends at 23:59:59.999 of the last day, not at the 1st of
  the next month. The filter's end test is strict, so an event that starts
  in that last millisecond is missing from month mode's `eventsInRange`
  list (`Window.MonthWindowDropsLastMillisecond`). The month grid does not
  draw that list; only the week and day columns read it, through
  `eventsForDay`. No form-created event can
  start there, because form times are whole minutes
  (`Window.MonthWindowWholeMinutes`).
- The month grid has no trailing placeholders; it is not padded to 42 cells.
- An event from 23:30 to 00:30 is listed on both days. In the second day's
  column its block is drawn from 23:30 with a height of one hour, so it runs
  past the bottom of the column (`Layout.AcrossMidnightBlock`).
- Month navigation builds `new Date(y, m ± 1, 1)` from the current date's
  year. For a date in years 0 to 99 this lands in the 1900s.

## Model

| member | source | states |
|---|---|---|
| Civil.DaysInMonth | imdown/src/components/Calendar.jsx:101-102 | month lengths: 28 to 31 days, 29 exactly for February of a leap year, 28 exactly for February otherwise |
| Civil.FromDayNumber | imdown/src/components/Calendar.jsx:10 | the civil date read from a day number is a valid date whose day number is that day |
| Civil.FromDayNumberOfDayNumber | imdown/src/components/Calendar.jsx:114 | converting a valid civil date to its day number and back returns the same date |
| Civil.MonthsTile | imdown/src/components/Calendar.jsx:101-102 | the 1st of the next month is the 1st of this month plus this month's length, so day 0 of the next month is this month's last day |
| Civil.Weekday | imdown/src/components/Calendar.jsx:103 | the weekday of a day number is in 0..6 (0 is Sunday) |
| Civil.WeekdayAdd | imdown/src/components/Calendar.jsx:87 | `k` days later the weekday is `k` places further round the week, which is what moving back by `getDay()` days relies on |
| Civil.WeekdayAnchors | imdown/src/components/Calendar.jsx:103 | day 0 is 1970-01-01, a Thursday, and 2000-01-01 is a Saturday, as `getDay` reports them |
| JsDate.TimeWithinDay | imdown/src/components/Calendar.jsx:65 | the time of day lies in [0, one day) and splits the instant exactly into day and time |
| JsDate.CivilOf | imdown/src/components/Calendar.jsx:10 | the local date of an instant is a valid civil date |
| JsDate.MonthOf | imdown/src/components/Calendar.jsx:99 | `getMonth` is a month index 0..11 |
| JsDate.DateOf | imdown/src/components/Calendar.jsx:102 | `getDate` lies between 1 and the length of the instant's month |
| JsDate.WeekDay | imdown/src/components/Calendar.jsx:87 | `getDay` is in 0..6 |
| JsDate.Hours | imdown/src/components/Calendar.jsx:15 | `getHours` is in 0..23 |
| JsDate.Minutes | imdown/src/components/Calendar.jsx:15 | `getMinutes` is in 0..59 |
| CalendarState.ConstructorYearReadBack | imdown/src/components/Calendar.jsx:99-100 | a date built by the `Date` constructor with year 0..99 reads back as 1900 plus that year, and with any other year as that year |
| JsDate.CivilOfMakeDate | imdown/src/components/Calendar.jsx:114 | the date built from a valid civil date and a time of day reads back as that date and time |
| JsDate.MakeDayLastOfMonth | imdown/src/components/Calendar.jsx:101 | `new Date(y, m + 1, 0)` is the last day of month `m` |
| JsDate.WithDateShift | imdown/src/components/Calendar.jsx:59 | `setDate(getDate() + n)` moves an instant by exactly `n` whole days, across month and year ends |
| JsDate.DateObject.constructor | imdown/src/components/Calendar.jsx:58 | `new Date(date)` copies the instant |
| JsDate.DateObject.GetDate | imdown/src/components/Calendar.jsx:59 | the day of month is in 1..31 |
| JsDate.DateObject.GetDay | imdown/src/components/Calendar.jsx:87 | the weekday is in 0..6 |
| JsDate.DateObject.SetHours | imdown/src/components/Calendar.jsx:86 | `setHours` sets the time of day on the same date, overflowing hours rolling over into later days |
| JsDate.DateObject.SetDate | imdown/src/components/Calendar.jsx:59 | `setDate` replaces the day of month, rolling over out-of-range days |
| Text.TrimStartSpec | imdown/src/components/Calendar.jsx:177 | trimming the start removes a prefix of white space and stops at a character that is not white space |
| Text.TrimEndSpec | imdown/src/components/Calendar.jsx:177 | trimming the end removes a suffix of white space and stops at a character that is not white space |
| Text.TrimEmpty | imdown/src/components/Calendar.jsx:177-178 | a string trims to empty exactly when it is all white space |
| Text.TrimEnds | imdown/src/components/Calendar.jsx:202-203 | a non-empty trimmed string neither starts nor ends with white space |
| Text.TrimIdempotent | imdown/src/components/Calendar.jsx:177 | trimming twice is trimming once |
| Text.Split | imdown/src/components/Calendar.jsx:70 | `split` always yields at least one piece |
| Text.SplitJoin | imdown/src/components/Calendar.jsx:70-71 | no piece holds the separator, and joining the pieces with it gives the string back |
| Text.NumberOfPlain | imdown/src/components/Calendar.jsx:70-71 | `Number` of a blank string is 0 and of a digit string is its decimal value |
| Text.Digits | imdown/src/components/Calendar.jsx:6 | `String(n)` of a natural number is a non-empty run of digits |
| Text.NumberOfIntToString | imdown/src/components/Calendar.jsx:6 | `Number(String(n))` is `n` for every integer |
| Text.Pad2Length | imdown/src/components/Calendar.jsx:6 | `pad2` makes 0..99 exactly two characters |
| Text.Pad2Reads | imdown/src/components/Calendar.jsx:6 | `Number(pad2(n))` is `n`: the zero padding reads back as the same number |
| Temporal.HmLocal | imdown/src/components/Calendar.jsx:13-16 | `hmLocal` is five characters with a colon in the middle |
| Temporal.MinutesIntoDay | imdown/src/components/Calendar.jsx:63-66 | `minutesIntoDay` is in [0, 1440) and equals the whole minutes since local midnight |
| Temporal.AddDays | imdown/src/components/Calendar.jsx:57-61 | the copy moved by `setDate` is the same time of day `amount` calendar days later |
| Temporal.StartOfDay | imdown/src/components/Calendar.jsx:91-95 | the copy with hours zeroed is the local midnight of the date's day |
| Temporal.StartOfWeek | imdown/src/components/Calendar.jsx:84-89 | the copy with hours zeroed, moved back by its weekday, is the Sunday midnight on or before the date |
| Temporal.DayStartFrames | imdown/src/components/Calendar.jsx:91-95 | the start of the day is on the same day at time 0, is at or before the date, is less than a day before it, and is idempotent |
| Temporal.WeekStartFrames | imdown/src/components/Calendar.jsx:84-89 | the week start is a Sunday at time 0, at or before the date and less than seven days before it, and is idempotent |
| Temporal.WeekStartOfWeekDates | imdown/src/components/Calendar.jsx:280-281 | each of the seven days of a week has that week's Sunday as its week start |
| Temporal.SplitFormatted | imdown/src/components/Calendar.jsx:70-71 | formatted date and time strings of non-negative numbers split into exactly their number pieces |
| Temporal.ParseFormatted | imdown/src/components/Calendar.jsx:68-73 | parsing formatted non-negative numbers reads each number back unchanged |
| Temporal.LocalDateOfValid | imdown/src/components/Calendar.jsx:72 | for a valid civil date outside years 0 to 99, `new Date(y, m - 1, d, h, min, 0, 0)` is that day's midnight plus the hours and minutes, or Invalid Date outside the range of `Date` |
| Temporal.ParseOfFormat | imdown/src/components/Calendar.jsx:68-73 | parsing the `ymdLocal` and `hmLocal` strings of a date from year 100 on gives back the date truncated to the minute |
| Temporal.YmdLocalPieces | imdown/src/components/Calendar.jsx:8-11 | for years from 0 on, the pieces of `ymdLocal` split on '-' read back as the year, the month number and the day of month |
| Temporal.YmdLocalKey | imdown/src/components/Calendar.jsx:8-11 | for years from 0 on, two dates have the same `ymdLocal` string exactly when they are on the same local day |
| Temporal.MinuteOfDay | imdown/src/components/Calendar.jsx:15 | the day, hours and minutes of a date add up to the date truncated to the minute |
| Events.Filter | imdown/src/components/Calendar.jsx:238 | `filter` keeps exactly the elements that pass, as a subsequence of the input |
| Events.FilterConcat | imdown/src/components/Calendar.jsx:238 | filtering a concatenation is the concatenation of the filtered parts |
| Events.FilterCount | imdown/src/components/Calendar.jsx:238 | filtering keeps each passing element as many times as it occurs, and no other |
| Events.FilterNarrow | imdown/src/components/Calendar.jsx:248-253 | filtering by a narrower test after a wider one is filtering by the narrower one alone |
| Events.SubsequenceSorted | imdown/src/components/Calendar.jsx:218 | a subsequence of a list sorted by start is sorted by start |
| Events.InsertByStart | imdown/src/components/Calendar.jsx:210 | inserting into a sorted list keeps it sorted and adds exactly the one event |
| Events.SortByStart | imdown/src/components/Calendar.jsx:210 | sorting by start yields a sorted permutation of the input |
| Events.InsertStable | imdown/src/components/Calendar.jsx:210 | inserting keeps the order of the events that start at any one instant |
| Events.SortStable | imdown/src/components/Calendar.jsx:254 | the sort is stable: events with equal starts keep their input order |
| Events.SortSorted | imdown/src/components/Calendar.jsx:254 | sorting an already sorted list leaves it unchanged |
| Events.Overlapping | imdown/src/components/Calendar.jsx:238-242 | the filter keeps exactly the events with end after the range start and start before the range end, each as often as in the input, in input order |
| Events.OverlappingNarrow | imdown/src/components/Calendar.jsx:248-253 | re-filtering a filtered list for a range inside the first range is filtering the original list for it |
| Events.WithoutId | imdown/src/components/Calendar.jsx:218 | removal keeps exactly the events with another id, each as often as before, in their original order |
| Events.WithoutAbsentId | imdown/src/components/Calendar.jsx:218 | removing an id no event has changes nothing |
| Events.WithoutIdTwice | imdown/src/components/Calendar.jsx:218 | removing the same id twice is removing it once |
| Events.WithoutIdSorted | imdown/src/components/Calendar.jsx:218 | removal keeps a sorted list sorted |
| MonthGrid.GetDaysInMonth | imdown/src/components/Calendar.jsx:97-118 | the grid is one empty cell per weekday before the 1st, then the midnight of each day of the month in order, and nothing else |
| MonthGrid.LastDateOfMonth | imdown/src/components/Calendar.jsx:101-102 | `new Date(year, month + 1, 0).getDate()` is the length of the month |
| MonthGrid.FirstWeekdayOfMonth | imdown/src/components/Calendar.jsx:100-103 | `new Date(year, month, 1).getDay()` is the weekday of the month's 1st |
| MonthGrid.MidnightInMonth | imdown/src/components/Calendar.jsx:114 | `new Date(year, month, day)` is the midnight of that day of the month |
| MonthGrid.GridCell | imdown/src/components/Calendar.jsx:376-396 | the cell after `k` days of the month is day `k + 1` at midnight and sits in weekday column `(lead + k) % 7` |
| Window.ViewFromStored | imdown/src/components/Calendar.jsx:23-26 | the stored view is week or day exactly when the stored string names it; anything else gives month |
| Window.StoredViewRoundTrip | imdown/src/components/Calendar.jsx:155-157 | a view saved under its name reads back as the same view |
| Window.MonthWindow | imdown/src/components/Calendar.jsx:223-233 | the month window runs from the midnight of the 1st to one millisecond before the midnight after the last day |
| Window.MonthWindowMembers | imdown/src/components/Calendar.jsx:223-233 | an instant is inside the month window exactly when it falls in that month |
| Window.MonthWindowHoldsCurrent | imdown/src/components/Calendar.jsx:224 | outside years 0 to 99 the month window holds the current date |
| Window.MonthWindowsTile | imdown/src/components/Calendar.jsx:229-230 | the instant after a month window ends is where the next month's window starts |
| Window.WeekWindow | imdown/src/components/Calendar.jsx:225-231 | the week window starts at a Sunday midnight, is exactly seven days long, and holds the current date |
| Window.DayWindow | imdown/src/components/Calendar.jsx:226-232 | the day window is exactly the day of the selected date, or of the current date when none is selected |
| Window.EventsForDayContents | imdown/src/components/Calendar.jsx:245-255 | a day's list holds exactly the events overlapping that day, with their multiplicities, sorted by start and stable on equal starts |
| Window.AcrossMidnight | imdown/src/components/Calendar.jsx:245-255 | an event from 23:30 to 00:30 is listed on both days |
| Window.WeekDates | imdown/src/components/Calendar.jsx:280-282 | the week has seven dates, the `i`-th a midnight on weekday `i`, each a whole day inside the week window |
| Window.WeekColumnsLoseNothing | imdown/src/components/Calendar.jsx:467-468 | each week column lists the same events from the week's filtered list as from the whole list |
| Window.DayColumnLosesNothing | imdown/src/components/Calendar.jsx:531 | the day column lists the same events from the day's filtered list as from the whole list |
| Window.MonthWindowDropsLastMillisecond | imdown/src/components/Calendar.jsx:229-243 | an event starting in the month window's last millisecond is missing from month mode's `eventsInRange` list, though it overlaps that day |
| Window.MonthWindowWholeMinutes | imdown/src/components/Calendar.jsx:229-243 | for an event starting on a whole minute, the inclusive month end and the next midnight give the same answer |
| Window.SameDateIsSameDay | imdown/src/components/Calendar.jsx:267-274 | equal date, month and full year means the same local day |
| Window.IsTodayDay | imdown/src/components/Calendar.jsx:257-265 | a cell is today exactly when it exists and is on the same local day as the clock's reading |
| Window.IsSelectedDay | imdown/src/components/Calendar.jsx:267-274 | a cell is selected exactly when both it and the selection exist and fall on the same day |
| Layout.Clamp | imdown/src/components/Calendar.jsx:18 | `clamp` lies within the bounds, leaves values inside them alone, and gives the violated bound otherwise |
| Layout.Top | imdown/src/components/Calendar.jsx:475 | a block's top is in [0, H) and is 0.8 units per minute since midnight |
| Layout.Height | imdown/src/components/Calendar.jsx:476 | a block's height is between 18 and H; it is 18 when the raw height is at most 18 (at most 22.5 minutes) and H for a day or longer; in between it is the duration at 0.8 units per minute |
| Layout.DayBlocks | imdown/src/components/Calendar.jsx:472-476 | one block per event of the day's list, in order, each at `Top` of the event's start and `Height` of its duration, inside the column's bounds |
| Layout.AcrossMidnightBlock | imdown/src/components/Calendar.jsx:534-536 | an event from 23:30 to 00:30 is drawn at 1128 units with height 48, past the bottom of the column |
| CalendarState.Dedup | imdown/src/components/Calendar.jsx:696 | `Array.from(new Set(s))` has no duplicates and the same elements as `s` |
| CalendarState.DedupDistinct | imdown/src/components/Calendar.jsx:696 | a list without duplicates is unchanged by the set conversion |
| CalendarState.ToggleGroup | imdown/src/components/Calendar.jsx:694-698 | checking a group gives the old groups plus it, without duplicates; unchecking removes exactly it and keeps the order |
| CalendarState.CheckGroupAppends | imdown/src/components/Calendar.jsx:694-698 | on a list without duplicates, checking a group appends it unless it is already there |
| CalendarState.CheckDraftOutcome | imdown/src/components/Calendar.jsx:176-196 | a form is accepted exactly when the title is not blank, both times parse and end is after start; otherwise the message of the first failed check, in order |
| CalendarState.ParsedWholeMinute | imdown/src/components/Calendar.jsx:68-73 | a parsed form time is a whole minute |
| CalendarState.AcceptedEvent | imdown/src/components/Calendar.jsx:198-208 | an accepted form's event has the trimmed non-blank title, trimmed location and details, the form's groups, the parsed times with end after start, and colour blue |
| CalendarState.SortAppend | imdown/src/components/Calendar.jsx:210 | appending to a sorted list and sorting puts the new event after every event starting no later than it and before the rest |
| CalendarState.MonthStepLanding | imdown/src/components/Calendar.jsx:122 | month navigation lands on the midnight of the 1st of the month `k` months away |
| CalendarState.FirstOfMonth | imdown/src/components/Calendar.jsx:133 | `new Date(year, n, 1)` is the midnight of the 1st of month `n`, carried into the year |
| CalendarState.MonthNextThenPrevious | imdown/src/components/Calendar.jsx:120-140 | outside years 0 to 99, next then previous in month mode gives the 1st of the starting month |
| CalendarState.Calendar.constructor | imdown/src/components/Calendar.jsx:20-47 | initial state: today, no selection, the stored view or month, the stored events only for a user with an id, a closed empty form for today |
| CalendarState.Calendar.GoToPrevious | imdown/src/components/Calendar.jsx:120-129 | month mode: the 1st of the previous month, selection kept; week/day mode: current date and any selection move back 7 or 1 days |
| CalendarState.Calendar.GoToNext | imdown/src/components/Calendar.jsx:131-140 | month mode: the 1st of the next month, selection kept; week/day mode: current date and any selection move forward 7 or 1 days |
| CalendarState.Calendar.GoToToday | imdown/src/components/Calendar.jsx:142-146 | current and selected date both become today |
| CalendarState.Calendar.HandleDateClick | imdown/src/components/Calendar.jsx:148-153 | a date cell selects that date and makes it current; an empty cell changes nothing |
| CalendarState.Calendar.HandleViewChange | imdown/src/components/Calendar.jsx:155-161 | the view changes; the current date is selected only when moving to week or day with no selection |
| CalendarState.Calendar.OpenCreateEvent | imdown/src/components/Calendar.jsx:163-174 | the form reopens empty with 12:00 to 13:00 on the selected or current day, the default group, no error |
| CalendarState.Calendar.EditField | imdown/src/components/Calendar.jsx:599 | typing into a form input changes that field alone |
| CalendarState.Calendar.ToggleDraftGroup | imdown/src/components/Calendar.jsx:694-698 | a group checkbox changes the form's groups as ToggleGroup does |
| CalendarState.Calendar.CloseModal | imdown/src/components/Calendar.jsx:582 | closing hides the form |
| CalendarState.Calendar.CreateEvent | imdown/src/components/Calendar.jsx:176-215 | a rejected form only shows its message; an accepted one adds exactly its event, leaves the list sorted and one longer, clears the error and closes the form |
| CalendarState.Calendar.DeleteEvent | imdown/src/components/Calendar.jsx:217-221 | removes exactly the events with the id, keeping the rest in order and sorted |
| CalendarState.NextThenPrevious | imdown/src/components/Calendar.jsx:120-140 | in week and day modes, next then previous restores the current and selected dates |

## Left out

- Persistence: reading and writing `localStorage` and `JSON.parse`/`stringify`. The stored view and stored event list are constructor parameters. An absent, unreadable or non-array stored list is `None`. `persistEvents` is not modelled.
- ISO serialisation (`toISOString`): an event's `start` and `end` are the instants themselves.
- Time zones and daylight saving: there is one local wall clock, so every day is 86 400 000 ms long.
- The clock and randomness: `new Date()` as "today" is a parameter of the constructor and `GoToToday`. The generated event id is a parameter of `CreateEvent`. `isToday` takes `today` as an argument.
- Floating point: pixel geometry uses exact `real` arithmetic.
- Rendering: the JSX, CSS, the month and day names, and the `toLocaleDateString` header text.
- RSVP and overlap column-packing: neither exists in the code.
- JsDate.NewDate: the TimeClip to Invalid Date past ±8.64e15 ms is applied only where the model parses form input (`Temporal.ParseLocalDateTime`). The other constructors in the component always receive in-range dates.
- Text.NumberOf: handles only optional white space, an optional sign and decimal digits. Other `Number` literal forms (decimals, exponents, hexadecimal, `Infinity`) read as NaN. The form's date and time inputs produce none of these.
- Temporal.ParseOfFormat: stated for years from 100 on. Years 0 to 99 read back in the 1900s, and a negative year's minus sign is split off as a separator.
- CalendarState.MonthNextThenPrevious: stated outside years 0 to 99, where the constructor's year rule moves the date into the 1900s.
- CalendarState.Calendar.CreateEvent: the event's creation and the list's update are one step, with the id passed in; the re-render between React state updates is not modelled.
- Login.jsx and App.jsx are not part of this model.
