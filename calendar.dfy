/** The part of JavaScript's `Date` the lifecycle engine uses. An instant is
    a whole number of milliseconds since 1970-01-01T00:00Z; local time is
    taken to be UTC, so the `Date` setters (`setFullYear`, `setMonth`,
    `setDate`, `setHours`) are plain proleptic-Gregorian arithmetic on the
    civil date, with overflowing months and days carried over as the
    setters do. */
module Calendar {
  import opened Wrappers

  const DayMs := 86_400_000
  const HourMs := 3_600_000
  /** A `Date` holds at most this many milliseconds either side of the
      epoch; beyond it the value is an invalid date. */
  const MaxTime := 8_640_000_000_000_000

  datatype Civil = Civil(year: int, month: int, day: int)

  predicate IsLeapYear(y: int)
  {
    y % 4 == 0 && (y % 100 != 0 || y % 400 == 0)
  }

  function DaysInMonth(y: int, m: int): int
    requires 1 <= m <= 12
  {
    if m == 2 then (if IsLeapYear(y) then 29 else 28)
    else if m == 4 || m == 6 || m == 9 || m == 11 then 30
    else 31
  }

  predicate ValidCivil(c: Civil)
  {
    1 <= c.month <= 12 && 1 <= c.day <= DaysInMonth(c.year, c.month)
  }

  /** Days from 1 March of year 0 to 1 March of year `y`. */
  function YearStart(y: int): int
  {
    365 * y + y / 4 - y / 100 + y / 400
  }

  /** Days from 1 March to the first day of month `mp` counted from March
      (0 = March, ..., 11 = February). */
  function MonthOffset(mp: int): int
  {
    (153 * mp + 2) / 5
  }

  /** The day number (days since 1970-01-01) of a civil date; the day may
      run past the end of the month, as `Date` allows. */
  function DaysFromCivil(y: int, m: int, d: int): int
    requires 1 <= m <= 12
  {
    DayNumber(y, m - 1, d)
  }

  /** The day number of the first day of month `t`, counted as
      `12 * year + monthIndex` with a 0-based month index; `t - 2` counts
      the months from March of year 0. */
  function MonthStart(t: int): int
  {
    var u := t - 2;
    YearStart(u / 12) + MonthOffset(u % 12) - 719468
  }

  /** `MakeDay(year, monthIndex, day)`: the month index and the day may lie
      outside their usual ranges and carry into the year and the month. */
  function DayNumber(year: int, monthIndex: int, day: int): int
  {
    MonthStart(12 * year + monthIndex) + day - 1
  }

  /** The first day of month `mp` (counted from March) of March-based
      year `y`. */
  lemma MonthStartOf(t: int, y: int, mp: int)
    requires 0 <= mp < 12 && t == 12 * y + mp + 2
    ensures MonthStart(t) == YearStart(y) + MonthOffset(mp) - 719468
  {
    assert (t - 2) / 12 == y && (t - 2) % 12 == mp;
  }

  lemma EraYearStart(era: int, yoe: int)
    requires 0 <= yoe < 400
    ensures YearStart(400 * era + yoe) == 146097 * era + 365 * yoe + yoe / 4 - yoe / 100
  {
    var y := 400 * era + yoe;
    assert y / 4 == 100 * era + yoe / 4;
    assert y / 100 == 4 * era + yoe / 100;
    assert y / 400 == era;
  }

  lemma CycleYearStart(cen: int, quad: int, yr: int)
    requires 0 <= cen < 4 && 0 <= quad < 25 && 0 <= yr < 4
    ensures var yoe := 100 * cen + 4 * quad + yr;
      365 * yoe + yoe / 4 - yoe / 100 == 36524 * cen + 1461 * quad + 365 * yr
  {
    var yoe := 100 * cen + 4 * quad + yr;
    assert yoe / 4 == 25 * cen + quad;
    assert yoe / 100 == cen;
  }

  lemma MonthOfYearDay(doy: int, leap: bool)
    requires 0 <= doy <= (if leap then 365 else 364)
    ensures var mp := (5 * doy + 2) / 153;
      var m := if mp < 10 then mp + 3 else mp - 9;
      && 0 <= mp < 12
      && 1 <= doy - MonthOffset(mp) + 1
      && doy - MonthOffset(mp) + 1 <= (if m == 2 then (if leap then 29 else 28)
           else if m == 4 || m == 6 || m == 9 || m == 11 then 30 else 31)
  {
  }

  lemma Mod4(a: int)
    ensures (4 * a) % 4 == 0
  {
  }

  lemma Mod100(a: int, r: int)
    requires 0 <= r < 100
    ensures (100 * a + r) % 100 == r
  {
  }

  lemma Mod400(a: int)
    ensures (400 * a) % 400 == 0
  {
  }

  /** The 366th day of a March-based year only occurs when the following
      February has 29 days. */
  lemma LeapDayOnlyInLeapYears(era: int, cen: int, r1: int)
    requires 0 <= cen <= 3 && 0 <= r1 <= (if cen < 3 then 36523 else 36524)
    ensures var quad := r1 / 1461; var r2 := r1 - 1461 * quad;
      var yr := if r2 / 365 < 3 then r2 / 365 else 3;
      r2 - 365 * yr == 365 ==> IsLeapYear(400 * era + 100 * cen + 4 * quad + yr + 1)
  {
    var quad := r1 / 1461;
    var r2 := r1 - 1461 * quad;
    var yr := if r2 / 365 < 3 then r2 / 365 else 3;
    if r2 - 365 * yr == 365 {
      assert yr == 3 && r2 == 1460;
      var next := 400 * era + 100 * cen + 4 * (quad + 1);
      Mod4(100 * era + 25 * cen + quad + 1);
      if quad == 24 {
        assert cen == 3;
        Mod400(era + 1);
        assert next == 400 * (era + 1);
      } else {
        Mod100(4 * era + cen, 4 * (quad + 1));
      }
    }
  }

  /** A year counted from March and a 0-based day within it. */
  datatype YearDay = YearDay(year: int, dayOfYear: int)

  /** The March-based year and day of year of a day number: the 400-year
      era, then the century, the four-year cycle and the year within it. */
  function YearDayOf(n: int): (r: YearDay)
    ensures 0 <= r.dayOfYear <= (if IsLeapYear(r.year + 1) then 365 else 364)
    ensures YearStart(r.year) + r.dayOfYear - 719468 == n
  {
    var z := n + 719468;
    var era := z / 146097;
    var doe := z % 146097;
    var cen := if doe / 36524 < 3 then doe / 36524 else 3;
    var r1 := doe - 36524 * cen;
    var quad := r1 / 1461;
    var r2 := r1 - 1461 * quad;
    var yr := if r2 / 365 < 3 then r2 / 365 else 3;
    LeapDayOnlyInLeapYears(era, cen, r1);
    CycleYearStart(cen, quad, yr);
    EraYearStart(era, 100 * cen + 4 * quad + yr);
    YearDay(400 * era + 100 * cen + 4 * quad + yr, r2 - 365 * yr)
  }

  /** The civil date of day `doy` of the March-based year `y`. */
  function CivilOfYearDay(y: int, doy: int): (c: Civil)
    requires 0 <= doy <= (if IsLeapYear(y + 1) then 365 else 364)
    ensures ValidCivil(c)
    ensures DaysFromCivil(c.year, c.month, c.day) == YearStart(y) + doy - 719468
  {
    var mp := (5 * doy + 2) / 153;
    var m := if mp < 10 then mp + 3 else mp - 9;
    CivilOfYearDayValid(y, doy);
    CivilOfYearDayNumber(y, doy);
    Civil(if m <= 2 then y + 1 else y, m, doy - MonthOffset(mp) + 1)
  }

  lemma CivilOfYearDayValid(y: int, doy: int)
    requires 0 <= doy <= (if IsLeapYear(y + 1) then 365 else 364)
    ensures var mp := (5 * doy + 2) / 153;
      var m := if mp < 10 then mp + 3 else mp - 9;
      ValidCivil(Civil(if m <= 2 then y + 1 else y, m, doy - MonthOffset(mp) + 1))
  {
    MonthOfYearDay(doy, IsLeapYear(y + 1));
  }

  lemma CivilOfYearDayNumber(y: int, doy: int)
    requires 0 <= doy <= 365
    ensures var mp := (5 * doy + 2) / 153;
      var m := if mp < 10 then mp + 3 else mp - 9;
      DaysFromCivil(if m <= 2 then y + 1 else y, m, doy - MonthOffset(mp) + 1)
        == YearStart(y) + doy - 719468
  {
    var mp := (5 * doy + 2) / 153;
    var m := if mp < 10 then mp + 3 else mp - 9;
    var cy := if m <= 2 then y + 1 else y;
    assert 0 <= mp < 12;
    MonthStartOf(12 * cy + (m - 1), y, mp);
  }

  /** The civil date of a day number, computed: a valid date that maps back
      to the same day number. */
  function CivilFromDays(n: int): (c: Civil)
    ensures ValidCivil(c)
    ensures DaysFromCivil(c.year, c.month, c.day) == n
  {
    var yd := YearDayOf(n);
    CivilOfYearDay(yd.year, yd.dayOfYear)
  }

  /** Counting multiples of 4, 100 and 400 up to `y` rather than `y - 1`
      adds one exactly when `y` is such a multiple. */
  lemma QuarterStep(y: int)
    ensures y / 4 == (y - 1) / 4 + (if y % 4 == 0 then 1 else 0)
  {
  }

  lemma CenturyStep(y: int)
    ensures y / 100 == (y - 1) / 100 + (if y % 100 == 0 then 1 else 0)
    ensures y % 100 == 0 ==> y % 4 == 0
  {
  }

  lemma QuadCenturyStep(y: int)
    ensures y / 400 == (y - 1) / 400 + (if y % 400 == 0 then 1 else 0)
  {
  }

  /** The March-based year `y - 1` is 365 days long, 366 when the
      February it ends with has 29 days. */
  lemma YearLength(y: int)
    ensures YearStart(y) - YearStart(y - 1) == if IsLeapYear(y) then 366 else 365
  {
    QuarterStep(y);
    CenturyStep(y);
    QuadCenturyStep(y);
  }

  /** Within a March-based year, month lengths follow the civil calendar
      (March has 31 days, April 30, ..., January 31). */
  lemma MonthOffsetStep(mp: int)
    requires 0 <= mp < 11
    ensures MonthOffset(mp + 1) - MonthOffset(mp)
         == DaysInMonth(0, if mp < 10 then mp + 3 else 1)
  {
  }

  /** From March to December each month has the days of its civil
      month. */
  lemma MonthLengthMarchOn(year: int, month: int)
    requires 3 <= month <= 12
    ensures MonthStart(12 * year + month) - MonthStart(12 * year + (month - 1))
         == DaysInMonth(year, month)
  {
    MonthStartOf(12 * year + (month - 1), year, month - 3);
    MonthStartOf(12 * year + month, year, month - 2);
    MonthOffsetStep(month - 3);
  }

  /** January has 31 days. */
  lemma MonthLengthJanuary(year: int)
    ensures MonthStart(12 * year + 1) - MonthStart(12 * year) == 31
  {
    MonthStartOf(12 * year, year - 1, 10);
    MonthStartOf(12 * year + 1, year - 1, 11);
  }

  /** February has 29 days in a leap year and 28 otherwise. */
  lemma MonthLengthFebruary(year: int)
    ensures MonthStart(12 * year + 2) - MonthStart(12 * year + 1) == DaysInMonth(year, 2)
  {
    MonthStartOf(12 * year + 1, year - 1, 11);
    MonthStartOf(12 * year + 2, year, 0);
    YearLength(year);
  }

  /** Month `month` of `year` has exactly the days of its civil month. */
  lemma MonthLength(year: int, month: int)
    requires 1 <= month <= 12
    ensures MonthStart(12 * year + month) - MonthStart(12 * year + (month - 1))
         == DaysInMonth(year, month)
  {
    if month == 1 {
      MonthLengthJanuary(year);
    } else if month == 2 {
      MonthLengthFebruary(year);
    } else {
      MonthLengthMarchOn(year, month);
    }
  }

  /** Year starts never decrease: whole years of 365 days lie between
      them, and the leap days removed for centuries never outnumber those
      added every fourth year. */
  lemma YearStartGrowth(a: int, b: int)
    requires a <= b
    ensures YearStart(b) - YearStart(a) >= 365 * (b - a)
  {
    var q := b / 100 - a / 100;
    assert 100 * (b / 100) <= b && a < 100 * (a / 100) + 100;
    assert 25 * (b / 100) <= b / 4 && a / 4 <= 25 * (a / 100) + 24;
    assert b / 4 - a / 4 >= q;
  }

  /** A later month of the same March-based year starts at least 30 days
      later. */
  lemma MonthOffsetLater(mp1: int, mp2: int)
    requires 0 <= mp1 < mp2 < 12
    ensures MonthOffset(mp2) - MonthOffset(mp1) >= 30
    ensures 0 <= MonthOffset(mp1) && MonthOffset(mp2) <= 337
  {
  }

  /** A later month starts at least 28 days later. */
  lemma MonthStartLater(t1: int, t2: int)
    requires t1 < t2
    ensures MonthStart(t2) >= MonthStart(t1) + 28
  {
    var y1, y2 := (t1 - 2) / 12, (t2 - 2) / 12;
    var mp1, mp2 := (t1 - 2) % 12, (t2 - 2) % 12;
    if y1 == y2 {
      MonthOffsetLater(mp1, mp2);
    } else {
      YearStartGrowth(y1, y2);
      assert 0 <= MonthOffset(mp2) && MonthOffset(mp1) <= 337;
    }
  }

  /** The months from January of year 0 to the month of `c`. */
  function MonthCount(c: Civil): int
  {
    12 * c.year + (c.month - 1)
  }

  /** `c` is the civil date of day number `n`: its day falls in its month,
      and the day number it denotes is `n`. */
  predicate IsDateOf(c: Civil, n: int)
  {
    && 1 <= c.month <= 12 && 1 <= c.day
    && MonthStart(MonthCount(c)) + c.day - 1 == n
    && n < MonthStart(MonthCount(c) + 1)
  }

  /** Being the date of a day number is being a valid date that denotes
      it. */
  lemma IsDateOfValid(c: Civil, n: int)
    requires 1 <= c.month <= 12
    ensures IsDateOf(c, n) <==> ValidCivil(c) && DaysFromCivil(c.year, c.month, c.day) == n
  {
    MonthLength(c.year, c.month);
  }

  /** A date of day number `n` does not lie in an earlier month than
      another date of `n`. */
  lemma NotEarlierMonth(c1: Civil, c2: Civil, n: int)
    requires IsDateOf(c1, n) && IsDateOf(c2, n)
    ensures MonthCount(c1) >= MonthCount(c2)
  {
    if MonthCount(c1) < MonthCount(c2) {
      if MonthCount(c1) + 1 < MonthCount(c2) {
        MonthStartLater(MonthCount(c1) + 1, MonthCount(c2));
      }
    }
  }

  /** Two dates of the same day number lie in the same month. */
  lemma SameMonth(c1: Civil, c2: Civil, n: int)
    requires IsDateOf(c1, n) && IsDateOf(c2, n)
    ensures MonthCount(c1) == MonthCount(c2)
  {
    NotEarlierMonth(c1, c2, n);
    NotEarlierMonth(c2, c1, n);
  }

  /** The month count determines the year and the month. */
  lemma MonthCountUnique(c1: Civil, c2: Civil)
    requires 1 <= c1.month <= 12 && 1 <= c2.month <= 12
    requires MonthCount(c1) == MonthCount(c2)
    ensures c1.year == c2.year && c1.month == c2.month
  {
    var t := MonthCount(c1);
    assert t / 12 == c1.year && t % 12 == c1.month - 1;
    assert t / 12 == c2.year && t % 12 == c2.month - 1;
  }

  /** Distinct dates have distinct day numbers. */
  lemma DateUnique(c1: Civil, c2: Civil, n: int)
    requires IsDateOf(c1, n) && IsDateOf(c2, n)
    ensures c1 == c2
  {
    SameMonth(c1, c2, n);
    MonthCountUnique(c1, c2);
    assert MonthStart(MonthCount(c1)) == MonthStart(MonthCount(c2));
  }

  /** The civil date of day number `n`, as `getFullYear`, `getMonth` and
      `getDate` report it; only its defining property is used below. */
  ghost function DateOf(n: int): (c: Civil)
    ensures IsDateOf(c, n)
  {
    var w := CivilFromDays(n);
    IsDateOfValid(w, n);
    forall c1, c2 | IsDateOf(c1, n) && IsDateOf(c2, n)
      ensures c1 == c2
    {
      DateUnique(c1, c2, n);
    }
    var c :| IsDateOf(c, n);
    c
  }

  /** Computes the civil date of day number `n`. */
  method CivilOfDay(n: int) returns (c: Civil)
    ensures c == DateOf(n)
  {
    c := CivilFromDays(n);
    IsDateOfValid(c, n);
    DateUnique(c, DateOf(n), n);
  }

  predicate InRange(t: int)
  {
    -MaxTime <= t <= MaxTime
  }

  /** `TimeClip`: an instant out of range is an invalid date (`None`). */
  function Clip(t: int): (r: Option<int>)
    ensures r.Some? <==> InRange(t)
    ensures r.Some? ==> r.value == t
  {
    if InRange(t) then Some(t) else None
  }

  /** The instant at day number `day` and time of day `ms`. */
  function AtDay(day: int, ms: int): int
  {
    day * DayMs + ms
  }

  /** `MakeDate(MakeDay(year, monthIndex, day), ms)` followed by `TimeClip`. */
  function Compose(year: int, monthIndex: int, day: int, ms: int): Option<int>
  {
    Clip(AtDay(DayNumber(year, monthIndex, day), ms))
  }

  /** `d.setFullYear(d.getFullYear() + k)` on the valid date `t`. */
  ghost function AddYears(t: int, k: int): Option<int>
  {
    var c := DateOf(t / DayMs);
    Compose(c.year + k, c.month - 1, c.day, t % DayMs)
  }

  /** `d.setMonth(d.getMonth() + k)` on the valid date `t`. */
  ghost function AddMonths(t: int, k: int): Option<int>
  {
    var c := DateOf(t / DayMs);
    Compose(c.year, c.month - 1 + k, c.day, t % DayMs)
  }

  /** `d.setDate(d.getDate() + k)` on the valid date `t`. */
  ghost function AddDays(t: int, k: int): Option<int>
  {
    var c := DateOf(t / DayMs);
    Compose(c.year, c.month - 1, c.day + k, t % DayMs)
  }

  /** Computes `setFullYear(getFullYear() + k)`. */
  method SetFullYear(t: int, k: int) returns (r: Option<int>)
    ensures r == AddYears(t, k)
  {
    var c := CivilOfDay(t / DayMs);
    r := Compose(c.year + k, c.month - 1, c.day, t % DayMs);
  }

  /** Computes `setMonth(getMonth() + k)`. */
  method SetMonth(t: int, k: int) returns (r: Option<int>)
    ensures r == AddMonths(t, k)
  {
    var c := CivilOfDay(t / DayMs);
    r := Compose(c.year, c.month - 1 + k, c.day, t % DayMs);
  }

  /** Computes `setDate(getDate() + k)`. */
  method SetDate(t: int, k: int) returns (r: Option<int>)
    ensures r == AddDays(t, k)
  {
    var c := CivilOfDay(t / DayMs);
    r := Compose(c.year, c.month - 1, c.day + k, t % DayMs);
  }

  /** `d.setHours(d.getHours() + k)` on the valid date `t`. */
  function AddHours(t: int, k: int): Option<int>
  {
    Clip(t + k * HourMs)
  }

  /** `new Date(year, monthIndex, day)`: local midnight, with a year from 0
      to 99 read as 1900 to 1999. */
  function LocalDate(year: int, monthIndex: int, day: int): Option<int>
  {
    var y := if 0 <= year <= 99 then 1900 + year else year;
    Compose(y, monthIndex, day, 0)
  }

  /** `new Date("YYYY-MM-DD")` on the value of a date input: midnight UTC of
      that date, or an invalid date. */
  function DateOfInput(c: Civil): Option<int>
  {
    if ValidCivil(c) then Compose(c.year, c.month - 1, c.day, 0) else None
  }

  /** Moving the day of the month of a date by `k` moves it by exactly `k`
      days. */
  lemma ComposeShifted(t: int, c: Civil, k: int)
    requires IsDateOf(c, t / DayMs)
    ensures Compose(c.year, c.month - 1, c.day + k, t % DayMs) == Clip(t + k * DayMs)
  {
  }

  /** `setDate(getDate() + k)` moves an instant by exactly `k` days,
      whatever the month lengths in between. */
  lemma AddDaysShifts(t: int, k: int)
    ensures AddDays(t, k) == Clip(t + k * DayMs)
  {
    ComposeShifted(t, DateOf(t / DayMs), k);
  }

  /** Adding zero years or zero months leaves a valid instant where it
      is. */
  lemma AddNothing(t: int)
    ensures AddYears(t, 0) == Clip(t)
    ensures AddMonths(t, 0) == Clip(t)
  {
    ComposeShifted(t, DateOf(t / DayMs), 0);
  }

  /** The date of a day number is any date shown to denote it. */
  lemma DateOfIs(c: Civil, n: int)
    requires IsDateOf(c, n)
    ensures DateOf(n) == c
  {
    DateUnique(c, DateOf(n), n);
  }

  /** Moving the month of a date on by `k >= 1`, the day of the month kept,
      lands at least 28 days later. */
  lemma ComposeLater(t: int, year: int, monthIndex: int, day: int, k: int)
    requires DayNumber(year, monthIndex, day) == t / DayMs
    requires k >= 1
    ensures var r := Compose(year, monthIndex + k, day, t % DayMs);
      r.Some? ==> r.value >= t + 28 * DayMs
  {
    var m := 12 * year + monthIndex;
    assert 12 * year + (monthIndex + k) == m + k;
    MonthStartLater(m, m + k);
  }

  /** Adding at least one month never lands less than 28 days later. */
  lemma AddMonthsLater(t: int, k: int)
    requires k >= 1
    ensures AddMonths(t, k).Some? ==> AddMonths(t, k).value >= t + 28 * DayMs
  {
    var c := DateOf(t / DayMs);
    ComposeLater(t, c.year, c.month - 1, c.day, k);
  }

  /** Adding at least one year never lands less than 28 days later. */
  lemma AddYearsLater(t: int, k: int)
    requires k >= 1
    ensures AddYears(t, k).Some? ==> AddYears(t, k).value >= t + 28 * DayMs
  {
    var c := DateOf(t / DayMs);
    ComposeLater(t, c.year, c.month - 1, c.day, 12 * k);
    assert 12 * (c.year + k) + (c.month - 1) == 12 * c.year + (c.month - 1 + 12 * k);
  }
}
