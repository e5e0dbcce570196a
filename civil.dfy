/**
 * The proleptic Gregorian calendar used by JavaScript's Date: leap years,
 * month lengths, and the conversion between a civil date (year, 0-based
 * month index, day of month) and a day number counted from 1970-01-01.
 */
module Civil {

  /** A civil date; `month` is the 0-based month index JavaScript uses (0 = January). */
  datatype Ymd = Ymd(year: int, month: int, day: int)

  predicate IsLeapYear(y: int)
  {
    y % 4 == 0 && (y % 100 != 0 || y % 400 == 0)
  }

  /** Number of days in month `m` (0-based) of year `y`. */
  function DaysInMonth(y: int, m: int): (n: int)
    requires 0 <= m < 12
    ensures 28 <= n <= 31
    ensures n == 29 <==> m == 1 && IsLeapYear(y)
    ensures n == 28 <==> m == 1 && !IsLeapYear(y)
  {
    if m == 1 then (if IsLeapYear(y) then 29 else 28)
    else if m == 3 || m == 5 || m == 8 || m == 10 then 30
    else 31
  }

  predicate ValidYmd(d: Ymd)
  {
    0 <= d.month < 12 && 1 <= d.day <= DaysInMonth(d.year, d.month)
  }

  // The conversion counts in 400-year eras of 146097 days whose years start on
  // 1 March, so that the leap day is the last day of a year.

  /** Days from 1 March of year 0 of an era to 1 March of year k, for 0 <= k < 400. */
  function DaysBeforeYearOfEra(k: int): int
  {
    365 * k + k / 4 - k / 100
  }

  /** Whether the March-based year k of an era ends with a 29 February. */
  predicate LeapYearOfEra(k: int)
  {
    (k + 1) % 4 == 0 && ((k + 1) % 100 != 0 || k + 1 == 400)
  }

  function YearOfEraLength(k: int): int
  {
    if LeapYearOfEra(k) then 366 else 365
  }

  /** The March-based year of the era that holds day `doe` of the era. */
  function YearOfEra(doe: int): int
  {
    (doe - doe / 1460 + doe / 36524 - doe / 146096) / 365
  }

  /** Day of the March-based year on which month `mp` (0 = March) starts. */
  function MonthStart(mp: int): int
  {
    (153 * mp + 2) / 5
  }

  function MonthOfDayOfYear(doy: int): int
  {
    (5 * doy + 2) / 153
  }

  /**
   * Day number (days since 1970-01-01) of day `d` of month `m` of year `y`.
   * `d` may lie outside the month: the result is then that many days before
   * the first or after the last day, which is how JavaScript's MakeDay
   * normalises an overflowing day of month.
   */
  function DayNumber(y: int, m: int, d: int): int
    requires 0 <= m < 12
  {
    var y' := if m < 2 then y - 1 else y;
    var mp := if m >= 2 then m - 2 else m + 10;
    (y' / 400) * 146097 + DaysBeforeYearOfEra(y' % 400) + MonthStart(mp) + d - 1 - 719468
  }

  /** The civil date of day number `z`. */
  function FromDayNumber(z: int): (r: Ymd)
    ensures ValidYmd(r)
    ensures DayNumber(r.year, r.month, r.day) == z
  {
    CivilOfEraDay((z + 719468) / 146097, (z + 719468) % 146097)
  }

  /** The civil date of day `doe` of 400-year era `era` (era 0 starts on 0000-03-01). */
  function CivilOfEraDay(era: int, doe: int): (r: Ymd)
    requires 0 <= doe < 146097
    ensures ValidYmd(r)
    ensures DayNumber(r.year, r.month, r.day) == era * 146097 + doe - 719468
  {
    YearOfEraCorrect(doe);
    var yoe := YearOfEra(doe);
    var doy := doe - DaysBeforeYearOfEra(yoe);
    MonthOfDayOfYearCorrect(doy);
    var mp := MonthOfDayOfYear(doy);
    var m := if mp < 10 then mp + 2 else mp - 10;
    var y := 400 * era + yoe + (if m < 2 then 1 else 0);
    EraDayInMonth(era, yoe, mp, doy);
    EraDayNumber(era, yoe, mp, doy);
    Ymd(y, m, doy - MonthStart(mp) + 1)
  }

  /** Day `doy` of March-based year `yoe`, inside month `mp`, is a valid day of that month. */
  lemma EraDayInMonth(era: int, yoe: int, mp: int, doy: int)
    requires 0 <= yoe < 400 && 0 <= mp < 12 && doy < YearOfEraLength(yoe)
    requires MonthStart(mp) <= doy < MonthStart(mp + 1)
    ensures var m := if mp < 10 then mp + 2 else mp - 10;
      0 <= m < 12 &&
      1 <= doy - MonthStart(mp) + 1 <= DaysInMonth(400 * era + yoe + (if m < 2 then 1 else 0), m)
  {
    LeapYearOfEraIsLeapYear(era, yoe);
  }

  /** The day number of day `doy` of March-based year `yoe` of era `era`. */
  lemma EraDayNumber(era: int, yoe: int, mp: int, doy: int)
    requires 0 <= yoe < 400 && 0 <= mp < 12
    ensures var m := if mp < 10 then mp + 2 else mp - 10;
      DayNumber(400 * era + yoe + (if m < 2 then 1 else 0), m, doy - MonthStart(mp) + 1)
        == era * 146097 + DaysBeforeYearOfEra(yoe) + doy - 719468
  {
    EraSplit(era, yoe);
  }

  lemma EraSplit(era: int, yoe: int)
    requires 0 <= yoe < 400
    ensures (400 * era + yoe) / 400 == era
    ensures (400 * era + yoe) % 400 == yoe
  {
  }

  lemma LeapYearOfEraIsLeapYear(era: int, yoe: int)
    requires 0 <= yoe < 400
    ensures LeapYearOfEra(yoe) <==> IsLeapYear(400 * era + yoe + 1)
  {
    ModShift(era, yoe + 1);
  }

  lemma ModShift(q: int, r: int)
    ensures (400 * q + r) % 4 == r % 4
    ensures (400 * q + r) % 100 == r % 100
    ensures (400 * q + r) % 400 == r % 400
  {
    ModShift4(100 * q, r);
    ModShift100(4 * q, r);
    ModShift400(q, r);
  }

  lemma ModShift4(q: int, r: int)
    ensures (4 * q + r) % 4 == r % 4
  {
  }

  lemma ModShift100(q: int, r: int)
    ensures (100 * q + r) % 100 == r % 100
  {
  }

  lemma ModShift400(q: int, r: int)
    ensures (400 * q + r) % 400 == r % 400
  {
  }

  lemma MonthOfDayOfYearCorrect(doy: int)
    requires 0 <= doy < 366
    ensures 0 <= MonthOfDayOfYear(doy) < 12
    ensures MonthStart(MonthOfDayOfYear(doy)) <= doy < MonthStart(MonthOfDayOfYear(doy) + 1)
  {
  }

  lemma YearOfEraDecomposed(c: int, g: int, s: int)
    requires 0 <= c < 4 && 0 <= g < 25 && 0 <= s < 1461
    requires (c < 3 && g == 24) ==> s < 1460
    ensures var j := if s / 365 < 3 then s / 365 else 3;
      YearOfEra(36524 * c + 1461 * g + s) == 100 * c + 4 * g + j
  {
    var doe := 36524 * c + 1461 * g + s;
    var t := if 24 * c + g + s >= 1460 then 1 else 0;
    assert doe / 1460 == 25 * c + g + t;
    var u := if doe == 146096 then 1 else 0;
    assert doe / 36524 == c + u;
    assert doe / 146096 == u;
    var x := 36500 * c + 1460 * g + s - t;
    assert doe - doe / 1460 + doe / 36524 - doe / 146096 == x;
    assert x / 365 == 100 * c + 4 * g + (s - t) / 365;
  }

  lemma DaysBeforeDecomposed(c: int, g: int, j: int)
    requires 0 <= c < 4 && 0 <= g < 25 && 0 <= j < 4
    ensures DaysBeforeYearOfEra(100 * c + 4 * g + j) == 36524 * c + 1461 * g + 365 * j
  {
    var k := 100 * c + 4 * g + j;
    assert k / 4 == 25 * c + g;
    assert k / 100 == c;
  }

  /** Every day of an era falls in exactly the March-based year YearOfEra names. */
  lemma YearOfEraCorrect(doe: int)
    requires 0 <= doe < 146097
    ensures 0 <= YearOfEra(doe) < 400
    ensures DaysBeforeYearOfEra(YearOfEra(doe)) <= doe
    ensures doe - DaysBeforeYearOfEra(YearOfEra(doe)) < YearOfEraLength(YearOfEra(doe))
  {
    var c := if doe / 36524 < 3 then doe / 36524 else 3;
    var r := doe - 36524 * c;
    var g := r / 1461;
    var s := r % 1461;
    assert 0 <= c < 4 && 0 <= g < 25 && 0 <= s < 1461 && doe == 36524 * c + 1461 * g + s;
    assert (c < 3 && g == 24) ==> s < 1460;
    var j := if s / 365 < 3 then s / 365 else 3;
    var k := 100 * c + 4 * g + j;
    assert YearOfEra(doe) == k by {
      YearOfEraDecomposed(c, g, s);
    }
    assert DaysBeforeYearOfEra(k) == 36524 * c + 1461 * g + 365 * j by {
      DaysBeforeDecomposed(c, g, j);
    }
    YearLengthDecomposed(c, g, s, j);
  }

  /** The days of a four-year group past its year `j` fit in the length of that year. */
  lemma YearLengthDecomposed(c: int, g: int, s: int, j: int)
    requires 0 <= c < 4 && 0 <= g < 25 && 0 <= s < 1461
    requires (c < 3 && g == 24) ==> s < 1460
    requires j == if s / 365 < 3 then s / 365 else 3
    ensures 365 * j <= s && s - 365 * j < YearOfEraLength(100 * c + 4 * g + j)
  {
    var k := 100 * c + 4 * g + j;
    if s == 1460 {
      assert j == 3 && k + 1 == 100 * c + 4 * (g + 1);
      assert (k + 1) % 4 == 0;
      assert (k + 1) % 100 == 0 ==> k + 1 == 400;
    }
  }

  /** Conversely, a day inside March-based year k of an era maps back to k. */
  lemma YearOfEraOfDay(k: int, doy: int)
    requires 0 <= k < 400 && 0 <= doy < YearOfEraLength(k)
    ensures YearOfEra(DaysBeforeYearOfEra(k) + doy) == k
  {
    var c := k / 100;
    var g := (k % 100) / 4;
    var j := k % 4;
    assert k == 100 * c + 4 * g + j;
    assert LeapYearOfEra(k) <==> j == 3 && (g < 24 || c == 3);
    assert 365 * j + doy < 1461;
    DaysBeforeDecomposed(c, g, j);
    YearOfEraDecomposed(c, g, 365 * j + doy);
  }

  lemma EraDaySplit(era: int, doe: int)
    requires 0 <= doe < 146097
    ensures (146097 * era + doe) / 146097 == era
    ensures (146097 * era + doe) % 146097 == doe
  {
  }

  lemma MonthOfDayOfYearInverse(mp: int, doy: int)
    requires 0 <= mp < 12 && MonthStart(mp) <= doy < MonthStart(mp + 1)
    ensures MonthOfDayOfYear(doy) == mp
  {
  }

  /** Splits a valid date into era, March-based year of era, March-based month and day of year. */
  lemma DateParts(d: Ymd) returns (era: int, yoe: int, mp: int, doy: int)
    requires ValidYmd(d)
    ensures 0 <= yoe < 400 && 0 <= mp < 12
    ensures doy == MonthStart(mp) + d.day - 1
    ensures MonthStart(mp) <= doy < MonthStart(mp + 1)
    ensures 0 <= doy < YearOfEraLength(yoe)
    ensures d.month == (if mp < 10 then mp + 2 else mp - 10)
    ensures d.year == 400 * era + yoe + (if d.month < 2 then 1 else 0)
    ensures DayNumber(d.year, d.month, d.day) + 719468 == 146097 * era + DaysBeforeYearOfEra(yoe) + doy
  {
    var y' := if d.month < 2 then d.year - 1 else d.year;
    mp := if d.month >= 2 then d.month - 2 else d.month + 10;
    era := y' / 400;
    yoe := y' % 400;
    doy := MonthStart(mp) + d.day - 1;
    LeapYearOfEraIsLeapYear(era, yoe);
  }

  /** The civil date of a day of an era, given the year of era and month it falls in. */
  lemma CivilOfEraDayOf(era: int, yoe: int, mp: int, doy: int)
    requires 0 <= yoe < 400 && 0 <= mp < 12 && 0 <= doy < YearOfEraLength(yoe)
    requires MonthStart(mp) <= doy < MonthStart(mp + 1)
    ensures 0 <= DaysBeforeYearOfEra(yoe) + doy < 146097
    ensures var m := if mp < 10 then mp + 2 else mp - 10;
      CivilOfEraDay(era, DaysBeforeYearOfEra(yoe) + doy)
        == Ymd(400 * era + yoe + (if m < 2 then 1 else 0), m, doy - MonthStart(mp) + 1)
  {
    YearOfEraOfDay(yoe, doy);
    YearOfEraCorrect(DaysBeforeYearOfEra(yoe) + doy);
    MonthOfDayOfYearInverse(mp, doy);
  }

  /** Converting a valid civil date to its day number and back returns it unchanged. */
  lemma {:induction false} FromDayNumberOfDayNumber(d: Ymd)
    requires ValidYmd(d)
    ensures FromDayNumber(DayNumber(d.year, d.month, d.day)) == d
  {
    var era, yoe, mp, doy := DateParts(d);
    var doe := DaysBeforeYearOfEra(yoe) + doy;
    var z := DayNumber(d.year, d.month, d.day);
    CivilOfEraDayOf(era, yoe, mp, doy);
    FromDayNumberOfEraDay(z, era, doe);
  }

  /** The day number `146097 * era + doe - 719468` is day `doe` of era `era`. */
  lemma FromDayNumberOfEraDay(z: int, era: int, doe: int)
    requires 0 <= doe < 146097 && z + 719468 == 146097 * era + doe
    ensures FromDayNumber(z) == CivilOfEraDay(era, doe)
  {
    var n := z + 719468;
    assert n == 146097 * era + doe;
    EraDaySplit(era, doe);
  }

  /** Day number of the 1st of the month after month `m` of year `y`. */
  function NextMonthStart(y: int, m: int): int
    requires 0 <= m < 12
  {
    if m == 11 then DayNumber(y + 1, 0, 1) else DayNumber(y, m + 1, 1)
  }

  /** March-based year `y - 1` is followed by March-based year `y`, across era ends too. */
  lemma NextMarchYear(y: int)
    ensures var era, yoe := (y - 1) / 400, (y - 1) % 400;
      146097 * (y / 400) + DaysBeforeYearOfEra(y % 400)
        == 146097 * era + DaysBeforeYearOfEra(yoe) + YearOfEraLength(yoe)
  {
    var era, yoe := (y - 1) / 400, (y - 1) % 400;
    assert y == 400 * era + yoe + 1;
    if yoe == 399 {
      EraSplit(era + 1, 0);
      assert DaysBeforeYearOfEra(399) + YearOfEraLength(399) == 146097;
    } else {
      EraSplit(era, yoe + 1);
      DaysBeforeStep(yoe);
    }
  }

  /** A March-based year of an era other than the last is followed by the next one. */
  lemma DaysBeforeStep(k: int)
    requires 0 <= k < 399
    ensures DaysBeforeYearOfEra(k + 1) == DaysBeforeYearOfEra(k) + YearOfEraLength(k)
  {
    assert (k + 1) / 4 - k / 4 == if (k + 1) % 4 == 0 then 1 else 0;
    assert (k + 1) / 100 - k / 100 == if (k + 1) % 100 == 0 then 1 else 0;
    assert (k + 1) % 100 == 0 ==> (k + 1) % 4 == 0;
  }

  /** Months tile the day line: the next month starts right after the last day of this one. */
  lemma {:induction false} MonthsTile(y: int, m: int)
    requires 0 <= m < 12
    ensures NextMonthStart(y, m) == DayNumber(y, m, 1) + DaysInMonth(y, m)
  {
    if m == 1 {
      FebruaryTile(y);
    } else {
      OtherMonthTile(y, m);
    }
  }

  /** March starts right after the last day of February, which closes a March-based year. */
  lemma FebruaryTile(y: int)
    ensures DayNumber(y, 2, 1) == DayNumber(y, 1, 1) + DaysInMonth(y, 1)
  {
    NextMarchYear(y);
    LeapYearBefore(y);
    assert MonthStart(11) == 337;
  }

  /** The March-based year that ends in February of year `y` has a leap day exactly when `y` is a leap year. */
  lemma LeapYearBefore(y: int)
    ensures LeapYearOfEra((y - 1) % 400) <==> IsLeapYear(y)
  {
    var era, yoe := (y - 1) / 400, (y - 1) % 400;
    LeapYearOfEraIsLeapYear(era, yoe);
    assert 400 * era + yoe + 1 == y;
  }

  /** Every month but February is followed by a month of the same March-based year. */
  lemma OtherMonthTile(y: int, m: int)
    requires 0 <= m < 12 && m != 1
    ensures NextMonthStart(y, m) == DayNumber(y, m, 1) + DaysInMonth(y, m)
  {
  }

  /** Day `d` of a month is `d - 1` days after its 1st, for any `d`. */
  lemma DayNumberShift(y: int, m: int, d: int)
    requires 0 <= m < 12
    ensures DayNumber(y, m, 1) + d - 1 == DayNumber(y, m, d)
  {
  }

  /** Day of the week of day number `z`; 0 is Sunday (1970-01-01 was a Thursday). */
  function Weekday(z: int): (w: int)
    ensures 0 <= w < 7
  {
    (z + 4) % 7
  }

  /** Weekdays cycle: `k` days later is `k` places further round the week. */
  lemma WeekdayAdd(z: int, k: int)
    ensures Weekday(z + k) == (Weekday(z) + k) % 7
  {
  }

  /** Day 0 is 1970-01-01, a Thursday, and 2000-01-01 was a Saturday. */
  lemma WeekdayAnchors()
    ensures DayNumber(1970, 0, 1) == 0 && Weekday(0) == 4
    ensures DayNumber(2000, 0, 1) == 10957 && Weekday(10957) == 6
  {
  }
}
