/**
 * Vertical placement of event blocks in the week and day views: a day
 * column is 24 hours of 48 pixels, a block's top is its start's time of
 * day on that scale, and its height is its duration on the same scale,
 * clamped to at least 18 pixels and at most the column.
 */
module Layout {
  import opened JsDate
  import opened Temporal
  import opened Events

  const HourHeight: real := 48.0
  const TotalHeight: real := 24.0 * HourHeight
  const MinBlockHeight: real := 18.0

  /** `clamp(n, min, max)`: `Math.max(min, Math.min(max, n))` */
  function Clamp(n: real, lo: real, hi: real): (r: real)
    ensures lo <= hi ==> lo <= r <= hi
    ensures lo <= n <= hi ==> r == n
    ensures n <= lo ==> r == lo
    ensures lo <= hi <= n ==> r == hi
  {
    if lo > (if hi < n then hi else n) then lo else (if hi < n then hi else n)
  }

  /** A block's top: the start's minutes into its own day, at 0.8 pixels a minute. */
  function Top(start: Time): (r: real)
    ensures 0.0 <= r < TotalHeight
    ensures r == (TimeWithinDay(start) / MsPerMinute) as real * 0.8
  {
    (MinutesIntoDay(start) as real / 1440.0) * TotalHeight
  }

  /** A block's height before clamping: the duration at 0.8 pixels a minute. */
  function RawHeight(start: Time, end: Time): real
  {
    ((end - start) as real / (1000.0 * 60.0) / 1440.0) * TotalHeight
  }

  /**
   * A block's height: never below 18 pixels, which is the height of 22.5
   * minutes, and never above the whole column, which is one day.
   */
  function Height(start: Time, end: Time): (r: real)
    ensures MinBlockHeight <= r <= TotalHeight
    ensures end - start <= 1350000 ==> r == MinBlockHeight
    ensures end - start >= MsPerDay ==> r == TotalHeight
    ensures 1350000 <= end - start <= MsPerDay ==> r == (end - start) as real / 75000.0
    ensures RawHeight(start, end) <= MinBlockHeight ==> r == MinBlockHeight
    ensures RawHeight(start, end) >= TotalHeight ==> r == TotalHeight
  {
    Clamp(RawHeight(start, end), MinBlockHeight, TotalHeight)
  }

  /** A positioned event block. */
  datatype Block = Block(event: Event, top: real, height: real)

  /** The blocks of one day column, in the order of the day's event list. */
  function DayBlocks(dayEvents: seq<Event>): (r: seq<Block>)
    ensures |r| == |dayEvents|
    ensures forall i :: 0 <= i < |r| ==> r[i].event == dayEvents[i]
    ensures forall i :: 0 <= i < |r| ==> r[i].top == Top(dayEvents[i].start) && r[i].height == Height(dayEvents[i].start, dayEvents[i].end)
    ensures forall i :: 0 <= i < |r| ==> 0.0 <= r[i].top < TotalHeight && MinBlockHeight <= r[i].height <= TotalHeight
  {
    seq(|dayEvents|, i requires 0 <= i < |dayEvents| =>
      Block(dayEvents[i], Top(dayEvents[i].start), Height(dayEvents[i].start, dayEvents[i].end)))
  }

  /**
   * An event from 23:30 to 00:30 is drawn in both days' columns at the same
   * place, 23:30 on the scale, one hour high: in the second day's column it
   * runs past the bottom instead of covering 00:00 to 00:30.
   */
  lemma AcrossMidnightBlock(e: Event, date: Time)
    requires e.start == DayStart(date) + 23 * MsPerHour + 30 * MsPerMinute
    requires e.end == e.start + MsPerHour
    ensures Top(e.start) == 1128.0 && Height(e.start, e.end) == 48.0
    ensures Top(e.start) + Height(e.start, e.end) > TotalHeight
  {
    DayStartFrames(date);
    DayOfMakeDate(Day(date), 23 * MsPerHour + 30 * MsPerMinute);
  }
}
