/**
  Civil dates of the proleptic Gregorian calendar and the few operations the
  calendar grid needs of a date library: month lengths, the day of the week,
  stepping a date by a number of days (`setDate(getDate() + n)`), and the
  ordering of timestamps.

  One civil-date convention is used throughout: a date is a (year, month,
  day-of-month) triple, months counted from 0 as the component's date library
  counts them.
*/
module CivilDates {

  /** Month numbers: 0 = January … 11 = December. */
  type Month = m: int | 0 <= m < 12

  /** Day-of-week numbers: 0 = Sunday … 6 = Saturday. */
  type DayOfWeek = w: int | 0 <= w < 7

  predicate IsLeapYear(y: int) {
    y % 4 == 0 && (y % 100 != 0 || y % 400 == 0)
  }

  function DaysInYear(y: int): int {
    if IsLeapYear(y) then 366 else 365
  }

  function DaysInMonth(y: int, m: Month): (n: int)
    ensures 28 <= n <= 31
    ensures n == 29 <==> m == 1 && IsLeapYear(y)
  {
    if m == 1 then (if IsLeapYear(y) then 29 else 28)
    else if m == 3 || m == 5 || m == 8 || m == 10 then 30
    else 31
  }

  datatype Date = Date(year: int, month: int, day: int)

  predicate IsValid(d: Date) {
    0 <= d.month < 12 && 1 <= d.day <= DaysInMonth(d.year, d.month)
  }

  /** A date that exists in the calendar. */
  type CivilDate = d: Date | IsValid(d) witness Date(1970, 0, 1)

  /** Days of year `y` before the first day of month `m` (`m == 12`: the whole year). */
  function DaysBeforeMonth(y: int, m: int): int
    requires 0 <= m <= 12
  {
    var common :=
      if m == 0 then 0 else if m == 1 then 31 else if m == 2 then 59
      else if m == 3 then 90 else if m == 4 then 120 else if m == 5 then 151
      else if m == 6 then 181 else if m == 7 then 212 else if m == 8 then 243
      else if m == 9 then 273 else if m == 10 then 304 else if m == 11 then 334
      else 365;
    common + (if m >= 2 && IsLeapYear(y) then 1 else 0)
  }

  /** Days from 1 January of year 1 to 1 January of year `y`. */
  function DaysBeforeYear(y: int): int {
    var p := y - 1;
    365 * p + p / 4 - p / 100 + p / 400
  }

  /** The serial day number: days since 1 January of year 1 (serial 0, a Monday). */
  function Serial(d: CivilDate): int {
    DaysBeforeYear(d.year) + DaysBeforeMonth(d.year, d.month) + d.day - 1
  }

  /** The day of the week, as `Date.prototype.getDay` numbers it. */
  function Weekday(d: CivilDate): DayOfWeek {
    (Serial(d) + 1) % 7
  }

  /** The day of the week just before `s`, which is the last day of a week that starts on `s`. */
  function DayBefore(s: DayOfWeek): DayOfWeek {
    if s == 0 then 6 else s - 1
  }

  lemma DayBeforeMod(s: DayOfWeek)
    ensures DayBefore(s) == (s + 6) % 7
  {
  }

  lemma MonthStep(y: int, m: Month)
    ensures DaysBeforeMonth(y, m + 1) == DaysBeforeMonth(y, m) + DaysInMonth(y, m)
  {
  }

  lemma MonthsBefore(y: int, m1: int, m2: int)
    requires 0 <= m1 < m2 <= 12
    ensures DaysBeforeMonth(y, m1) + DaysInMonth(y, m1) <= DaysBeforeMonth(y, m2)
  {
  }

  lemma YearStep(y: int)
    ensures DaysBeforeYear(y + 1) == DaysBeforeYear(y) + DaysInYear(y)
  {
    var p := y - 1;
    assert p + 1 == y;
    assert y / 4 - p / 4 == (if y % 4 == 0 then 1 else 0);
    assert y / 100 - p / 100 == (if y % 100 == 0 then 1 else 0);
    assert y / 400 - p / 400 == (if y % 400 == 0 then 1 else 0);
  }

  lemma {:induction false} YearsBefore(y1: int, y2: int)
    requires y1 < y2
    ensures DaysBeforeYear(y1) + DaysInYear(y1) <= DaysBeforeYear(y2)
    ensures DaysBeforeYear(y2) - DaysBeforeYear(y1) >= 365 * (y2 - y1)
    decreases y2 - y1
  {
    YearStep(y1);
    if y1 + 1 < y2 {
      YearsBefore(y1 + 1, y2);
    }
  }

  /** The position of a date inside its year lies in the year. */
  lemma DayOfYearBounds(d: CivilDate)
    ensures 0 <= DaysBeforeMonth(d.year, d.month) + d.day - 1 < DaysInYear(d.year)
  {
    MonthStep(d.year, d.month);
    if d.month < 11 {
      MonthsBefore(d.year, d.month + 1, 12);
    }
  }

  /** Lexicographic order of (year, month, day): the order of the calendar. */
  predicate Before(a: CivilDate, b: CivilDate) {
    a.year < b.year
    || (a.year == b.year && a.month < b.month)
    || (a.year == b.year && a.month == b.month && a.day < b.day)
  }

  /** The serial number is strictly increasing along the calendar order. */
  lemma SerialMonotone(a: CivilDate, b: CivilDate)
    ensures Before(a, b) <==> Serial(a) < Serial(b)
  {
    if a.year < b.year {
      DayOfYearBounds(a);
      DayOfYearBounds(b);
      YearsBefore(a.year, b.year);
    } else if b.year < a.year {
      DayOfYearBounds(a);
      DayOfYearBounds(b);
      YearsBefore(b.year, a.year);
    } else if a.month < b.month {
      MonthsBefore(a.year, a.month, b.month);
    } else if b.month < a.month {
      MonthsBefore(a.year, b.month, a.month);
    }
  }

  /** Two dates with the same serial number are the same date. */
  lemma SerialInjective(a: CivilDate, b: CivilDate)
    requires Serial(a) == Serial(b)
    ensures a == b
  {
    SerialMonotone(a, b);
    SerialMonotone(b, a);
  }

  /** The calendar day after `d`. */
  function NextDay(d: CivilDate): (r: CivilDate)
    ensures Serial(r) == Serial(d) + 1
  {
    if d.day < DaysInMonth(d.year, d.month) then
      Date(d.year, d.month, d.day + 1)
    else if d.month < 11 then
      MonthStep(d.year, d.month);
      Date(d.year, d.month + 1, 1)
    else
      YearStep(d.year);
      Date(d.year + 1, 0, 1)
  }

  /** The calendar day before `d`. */
  function PrevDay(d: CivilDate): (r: CivilDate)
    ensures Serial(r) == Serial(d) - 1
  {
    if d.day > 1 then
      Date(d.year, d.month, d.day - 1)
    else if d.month > 0 then
      MonthStep(d.year, d.month - 1);
      Date(d.year, d.month - 1, DaysInMonth(d.year, d.month - 1))
    else
      YearStep(d.year - 1);
      Date(d.year - 1, 11, 31)
  }

  /**
    The date `n` days after `d` (before it when `n` is negative), as
    `setDate(getDate() + n)` normalises it.
  */
  function AddDays(d: CivilDate, n: int): (r: CivilDate)
    ensures Serial(r) == Serial(d) + n
    decreases if n < 0 then -n else n
  {
    if n == 0 then d
    else if n > 0 then NextDay(AddDays(d, n - 1))
    else PrevDay(AddDays(d, n + 1))
  }

  /** The dates shown by stepping one day at a time: `n` consecutive dates from `d` on. */
  function DatesFrom(d: CivilDate, n: nat): (r: seq<CivilDate>)
    ensures |r| == n && Consecutive(r, d)
    decreases n
  {
    if n == 0 then [] else [d] + DatesFrom(NextDay(d), n - 1)
  }

  /** Date `k` of `dates` is `k` days after `start`. */
  predicate Consecutive(dates: seq<CivilDate>, start: CivilDate) {
    forall k :: 0 <= k < |dates| ==> Serial(dates[k]) == Serial(start) + k
  }

  /** A date is determined by its serial number, so stepping and serial arithmetic agree. */
  lemma AddDaysBySerial(d: CivilDate, n: int, e: CivilDate)
    ensures AddDays(d, n) == e <==> Serial(e) == Serial(d) + n
  {
    if Serial(e) == Serial(d) + n {
      SerialInjective(AddDays(d, n), e);
    }
  }

  lemma {:induction false} NextPrevInverse(d: CivilDate)
    ensures NextDay(PrevDay(d)) == d && PrevDay(NextDay(d)) == d
  {
    SerialInjective(NextDay(PrevDay(d)), d);
    SerialInjective(PrevDay(NextDay(d)), d);
  }

  lemma ModSevenShift(a: int, n: int)
    ensures (a + n) % 7 == (a % 7 + n) % 7
  {
    var q, r := a / 7, a % 7;
    assert a == 7 * q + r;
    var k, r2 := (r + n) / 7, (r + n) % 7;
    assert r + n == 7 * k + r2;
    assert a + n == 7 * (q + k) + r2;
  }

  /** A date `n` days after `d` falls `n` places round the week from it. */
  lemma WeekdayBySerial(d: CivilDate, e: CivilDate, n: int)
    requires Serial(e) == Serial(d) + n
    ensures Weekday(e) == (Weekday(d) + n) % 7
  {
    ModSevenShift(Serial(d) + 1, n);
  }

  /** Stepping `n` days moves the day of the week `n` places round the week. */
  lemma WeekdayAfter(d: CivilDate, n: int)
    ensures Weekday(AddDays(d, n)) == (Weekday(d) + n) % 7
  {
    WeekdayBySerial(d, AddDays(d, n), n);
  }

  lemma ShiftArithmetic(w: DayOfWeek, j: int)
    requires 0 < j < 7
    ensures (w + j) % 7 != w
  {
  }

  /** Two dates one to six days apart fall on different days of the week. */
  lemma WeekdaysApart(d: CivilDate, e: CivilDate, j: int)
    requires 0 < j < 7 && Serial(e) == Serial(d) + j
    ensures Weekday(e) != Weekday(d)
  {
    WeekdayBySerial(d, e, j);
    ShiftArithmetic(Weekday(d), j);
  }

  /** Two dates one to six days apart do not share a day of the month. */
  lemma DaysOfMonthApart(a: CivilDate, b: CivilDate)
    requires Serial(a) < Serial(b) <= Serial(a) + 6
    ensures a.day != b.day
  {
    SerialMonotone(a, b);
    if a.year == b.year {
      NearbyInYear(a, b);
    } else {
      NearbyAcrossYears(a, b);
    }
  }

  /** Two dates of one year at most six days apart are in one month or in consecutive months. */
  lemma NearbyInYear(a: CivilDate, b: CivilDate)
    requires a.year == b.year && Serial(a) < Serial(b) <= Serial(a) + 6
    ensures a.day != b.day
  {
    if a.month < b.month {
      MonthsBefore(a.year, a.month, b.month);
    } else if b.month < a.month {
      MonthsBefore(a.year, b.month, a.month);
    }
  }

  /** Two dates of different years at most six days apart are late in December and early in January. */
  lemma NearbyAcrossYears(a: CivilDate, b: CivilDate)
    requires a.year < b.year && Serial(a) < Serial(b) <= Serial(a) + 6
    ensures a.month == 11 && b.month == 0 && a.day > 25 && b.day < 7
  {
    DayOfYearBounds(a);
    DayOfYearBounds(b);
    YearsBefore(a.year, b.year);
    var pa := DaysBeforeMonth(a.year, a.month) + a.day - 1;
    var pb := DaysBeforeMonth(b.year, b.month) + b.day - 1;
    assert DaysInYear(a.year) - pa + pb <= 6;
    MonthStep(a.year, a.month);
    if a.month < 11 {
      MonthsBefore(a.year, a.month + 1, 12);
    }
  }

  // ---------------------------------------------------------------------------
  // Timestamps

  const MillisPerDay: int := 86_400_000

  type TimeOfDay = n: int | 0 <= n < MillisPerDay

  /** A point in time: a civil date and the milliseconds elapsed since its midnight. */
  datatype Timestamp = Timestamp(date: CivilDate, time: TimeOfDay)

  function Midnight(d: CivilDate): Timestamp {
    Timestamp(d, 0)
  }

  /** Milliseconds since midnight of 1 January of year 1: what comparing two `Date` values compares. */
  function Millis(t: Timestamp): int {
    Serial(t.date) * MillisPerDay + t.time
  }

  /** `a <= b` on timestamps. */
  predicate NotAfter(a: Timestamp, b: Timestamp) {
    Millis(a) <= Millis(b)
  }

  /** Being at or after a midnight depends on the date alone. */
  lemma AtOrAfterMidnight(d: CivilDate, t: Timestamp)
    ensures NotAfter(Midnight(d), t) <==> Serial(d) <= Serial(t.date)
  {
  }

  /** Being at or before a midnight: an earlier date, or that very midnight. */
  lemma AtOrBeforeMidnight(t: Timestamp, d: CivilDate)
    ensures NotAfter(t, Midnight(d)) <==> Serial(t.date) < Serial(d) || (t.date == d && t.time == 0)
  {
    if Serial(t.date) == Serial(d) {
      SerialInjective(t.date, d);
    }
  }
}
