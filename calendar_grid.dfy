/**
  The month grid as a value: which dates it shows, how they fall into weeks,
  and what each cell carries. `RecordCalendar.GenerateCalendar` builds this
  value with a loop; the lemmas here state what the grid is.
*/
module CalendarGrid {
  import opened Wrappers
  import opened CivilDates
  import opened CalendarTypes
  import opened DayStyle

  /**
    The records that start on civil date `d`, in the order of `events`
    (the `events.filter` of each cell): every such record as often as it
    occurs, and nothing else.
  */
  function EventsOn(events: seq<Event>, d: CivilDate): (r: seq<Event>)
    ensures forall e :: multiset(r)[e] == (if StartsOn(e, d) then multiset(events)[e] else 0)
    ensures forall e :: e in r <==> e in events && StartsOn(e, d)
  {
    if |events| == 0 then []
    else
      assert events == [events[0]] + events[1..];
      (if StartsOn(events[0], d) then [events[0]] else []) + EventsOn(events[1..], d)
  }

  /** The filter keeps input order: filtering a concatenation concatenates the filtered parts. */
  lemma {:induction false} EventsOnConcat(a: seq<Event>, b: seq<Event>, d: CivilDate)
    ensures EventsOn(a + b, d) == EventsOn(a, d) + EventsOn(b, d)
  {
    if |a| == 0 {
      assert a + b == b;
    } else {
      var head := if StartsOn(a[0], d) then [a[0]] else [];
      assert (a + b)[0] == a[0];
      assert (a + b)[1..] == a[1..] + b;
      assert EventsOn(a + b, d) == head + EventsOn(a[1..] + b, d);
      assert EventsOn(a, d) == head + EventsOn(a[1..], d);
      EventsOnConcat(a[1..], b, d);
      var x, y := EventsOn(a[1..], d), EventsOn(b, d);
      Associative(head, x, y);
    }
  }

  lemma Associative<T>(p: seq<T>, q: seq<T>, r: seq<T>)
    ensures p + (q + r) == (p + q) + r
  {
  }

  /** One record is kept exactly when it starts on `d`. */
  lemma EventsOnSingle(e: Event, d: CivilDate)
    ensures EventsOn([e], d) == if StartsOn(e, d) then [e] else []
  {
    assert [e][1..] == [];
  }

  function FirstOfMonth(target: Timestamp): CivilDate {
    Date(target.date.year, target.date.month, 1)
  }

  function LastOfMonth(target: Timestamp): CivilDate {
    Date(target.date.year, target.date.month, DaysInMonth(target.date.year, target.date.month))
  }

  function MonthLength(target: Timestamp): int {
    DaysInMonth(target.date.year, target.date.month)
  }

  /** Days shown before the 1st: back to the most recent `startOfWeek`. */
  function LeadDays(target: Timestamp, startOfWeek: DayOfWeek): (r: nat)
    ensures r < 7
    ensures r == 0 <==> Weekday(FirstOfMonth(target)) == startOfWeek
  {
    (Weekday(FirstOfMonth(target)) - startOfWeek + 7) % 7
  }

  /** Days shown after the last of the month: on to the day before `startOfWeek`. */
  function TrailDays(target: Timestamp, startOfWeek: DayOfWeek): (r: nat)
    ensures r < 7
    ensures r == 0 <==> Weekday(LastOfMonth(target)) == DayBefore(startOfWeek)
  {
    6 - (Weekday(LastOfMonth(target)) - startOfWeek + 7) % 7
  }

  /**
    The first date shown: `LeadDays` days before the 1st, which is the 1st
    itself or a day late in the previous month (`new Date(year, month, 1 - lead)`
    normalised; `GridStartIsShift` and `GridEndIsShift` state that).
  */
  function GridStart(target: Timestamp, startOfWeek: DayOfWeek): CivilDate {
    var y, m, lead := target.date.year, target.date.month, LeadDays(target, startOfWeek);
    if lead == 0 then FirstOfMonth(target)
    else if m > 0 then Date(y, m - 1, DaysInMonth(y, m - 1) + 1 - lead)
    else Date(y - 1, 11, 32 - lead)
  }

  /**
    The last date shown: `TrailDays` days after the last of the month, which
    is that day itself or a day early in the next month.
  */
  function GridEnd(target: Timestamp, startOfWeek: DayOfWeek): CivilDate {
    var y, m, trail := target.date.year, target.date.month, TrailDays(target, startOfWeek);
    if trail == 0 then LastOfMonth(target)
    else if m < 11 then Date(y, m + 1, trail)
    else Date(y + 1, 0, trail)
  }

  /** The number of cells from the grid start to the grid end inclusive. */
  function GridLength(target: Timestamp, startOfWeek: DayOfWeek): nat {
    LeadDays(target, startOfWeek) + MonthLength(target) + TrailDays(target, startOfWeek)
  }

  /**
    The cell for `date` in the grid of reference month `month`, with "today"
    taken from `today`.
  */
  function MakeDay(date: CivilDate, month: Month, today: Timestamp, events: seq<Event>): Day {
    var day := Day(date, date.day, EventsOn(events, date), date.month == month, date == today.date, "");
    day.(css := DayCss(day))
  }

  /** The dates the grid shows, from the grid start to the grid end. */
  function GridDates(target: Timestamp, startOfWeek: DayOfWeek): (r: seq<CivilDate>)
    ensures |r| == GridLength(target, startOfWeek) && Consecutive(r, GridStart(target, startOfWeek))
  {
    DatesFrom(GridStart(target, startOfWeek), GridLength(target, startOfWeek))
  }

  /** The `k`-th cell of the grid, counted from 0 at the grid start. */
  function Cell(target: Timestamp, startOfWeek: DayOfWeek, events: seq<Event>, today: Timestamp, k: int): Day
    requires 0 <= k < GridLength(target, startOfWeek)
  {
    MakeDay(GridDates(target, startOfWeek)[k], target.date.month, today, events)
  }

  /**
    `count` rows of seven cells for the dates in `dates`, numbered from 1,
    the cells marked against reference month `month`.
  */
  function Rows(dates: seq<CivilDate>, count: nat, month: Month, events: seq<Event>, today: Timestamp): (g: seq<Week>)
    requires 7 * count <= |dates|
    ensures |g| == count && WellShaped(g)
    ensures forall w :: 0 <= w < |g| ==> g[w].weekNumber == w + 1
  {
    seq(count, w requires 0 <= w < count => Week(w + 1, RowPrefix(dates, w, 7, month, events, today)))
  }

  /** The first `j` cells of row `w` of the rows for `dates`. */
  function RowPrefix(dates: seq<CivilDate>, w: int, j: nat, month: Month, events: seq<Event>, today: Timestamp): (r: seq<Day>)
    requires 0 <= w && 7 * w + j <= |dates|
    ensures |r| == j
  {
    seq(j, i requires 0 <= i < j => MakeDay(dates[7 * w + i], month, today, events))
  }

  /** The grid of the month of `target`: its cells in rows of seven, numbered from 1. */
  function Grid(target: Timestamp, startOfWeek: DayOfWeek, events: seq<Event>, today: Timestamp): (g: seq<Week>)
    ensures WellShaped(g)
  {
    Rows(GridDates(target, startOfWeek), GridLength(target, startOfWeek) / 7, target.date.month, events, today)
  }

  // ---------------------------------------------------------------------------
  // Alignment of the two ends

  // Arithmetic on weekday numbers, kept apart from the dates it is about.

  lemma LeadArithmetic(a: DayOfWeek, s: DayOfWeek, lead: int, w: int)
    requires lead == (a - s + 7) % 7 && w == (a + -lead) % 7
    ensures 0 <= lead <= 6 && w == s
  {
  }

  lemma TrailArithmetic(b: DayOfWeek, s: DayOfWeek, trail: int, w: int)
    requires trail == 6 - (b - s + 7) % 7 && w == (b + trail) % 7
    ensures 0 <= trail <= 6 && w == (s + 6) % 7
  {
  }

  lemma LengthArithmetic(a: DayOfWeek, b: DayOfWeek, s: DayOfWeek, n: int, lead: int, trail: int, total: int)
    requires 28 <= n <= 31
    requires b == (a + (n - 1)) % 7
    requires lead == (a - s + 7) % 7 && trail == 6 - (b - s + 7) % 7 && total == lead + n + trail
    ensures total % 7 == 0 && 28 <= total <= 42
  {
    var q1, q2, q3 := (a - s + 7) / 7, (a + n - 1) / 7, (b - s + 7) / 7;
    assert (a - s + 7) % 7 == a - s + 7 - 7 * q1;
    assert b == a + n - 1 - 7 * q2;
    assert (b - s + 7) % 7 == b - s + 7 - 7 * q3;
    assert (a - s + 7) % 7 + n + (6 - (b - s + 7) % 7) == 7 * (1 - q1 + q2 + q3);
  }

  /** A shift by one to six days changes the day of the week. */
  lemma WeekdayShift(d: CivilDate, j: int)
    requires 0 < j < 7
    ensures Weekday(AddDays(d, j)) != Weekday(d)
  {
    WeekdaysApart(d, AddDays(d, j), j);
  }

  lemma LeadWeekday(first: CivilDate, start: CivilDate, s: DayOfWeek, lead: int)
    requires lead == (Weekday(first) - s + 7) % 7 && Serial(start) == Serial(first) - lead
    ensures Weekday(start) == s
  {
    WeekdayBySerial(first, start, -lead);
    LeadArithmetic(Weekday(first), s, lead, Weekday(start));
  }

  lemma TrailWeekday(last: CivilDate, end: CivilDate, s: DayOfWeek, trail: int)
    requires trail == 6 - (Weekday(last) - s + 7) % 7 && Serial(end) == Serial(last) + trail
    ensures Weekday(end) == (s + 6) % 7
  {
    WeekdayBySerial(last, end, trail);
    TrailArithmetic(Weekday(last), s, trail, Weekday(end));
  }

  lemma GridStartSerial(target: Timestamp, startOfWeek: DayOfWeek)
    ensures Serial(GridStart(target, startOfWeek)) == Serial(FirstOfMonth(target)) - LeadDays(target, startOfWeek)
  {
    var y, m := target.date.year, target.date.month;
    if m > 0 {
      MonthStep(y, m - 1);
    } else {
      YearStep(y - 1);
      MonthStep(y - 1, 11);
    }
  }

  lemma GridEndSerial(target: Timestamp, startOfWeek: DayOfWeek)
    ensures Serial(GridEnd(target, startOfWeek)) == Serial(LastOfMonth(target)) + TrailDays(target, startOfWeek)
  {
    var y, m := target.date.year, target.date.month;
    MonthStep(y, m);
    if m == 11 {
      YearStep(y);
    }
  }

  /** The first date shown is the date the source reaches by shifting the 1st of the month back by the leading days. */
  lemma GridStartIsShift(target: Timestamp, startOfWeek: DayOfWeek)
    ensures GridStart(target, startOfWeek) == AddDays(FirstOfMonth(target), -(LeadDays(target, startOfWeek) as int))
  {
    var first, lead, start := FirstOfMonth(target), LeadDays(target, startOfWeek), GridStart(target, startOfWeek);
    GridStartSerial(target, startOfWeek);
    AddDaysBySerial(first, -(lead as int), start);
  }

  /** The last date shown is the date the source reaches by shifting the last of the month on by the trailing days. */
  lemma GridEndIsShift(target: Timestamp, startOfWeek: DayOfWeek)
    ensures GridEnd(target, startOfWeek) == AddDays(LastOfMonth(target), TrailDays(target, startOfWeek))
  {
    var last, trail, end := LastOfMonth(target), TrailDays(target, startOfWeek), GridEnd(target, startOfWeek);
    GridEndSerial(target, startOfWeek);
    AddDaysBySerial(last, trail, end);
  }

  lemma StartWeekday(target: Timestamp, startOfWeek: DayOfWeek)
    ensures Weekday(GridStart(target, startOfWeek)) == startOfWeek
  {
    GridStartSerial(target, startOfWeek);
    LeadWeekday(FirstOfMonth(target), GridStart(target, startOfWeek), startOfWeek, LeadDays(target, startOfWeek));
  }

  lemma EndWeekday(target: Timestamp, startOfWeek: DayOfWeek)
    ensures Weekday(GridEnd(target, startOfWeek)) == (startOfWeek + 6) % 7
  {
    GridEndSerial(target, startOfWeek);
    TrailWeekday(LastOfMonth(target), GridEnd(target, startOfWeek), startOfWeek, TrailDays(target, startOfWeek));
  }

  /**
    The grid starts on `startOfWeek`, on the 1st or at most six days before
    it, and no later day up to the 1st falls on `startOfWeek`.
  */
  lemma StartAlignment(target: Timestamp, startOfWeek: DayOfWeek)
    ensures 0 <= LeadDays(target, startOfWeek) <= 6
    ensures Serial(GridStart(target, startOfWeek)) == Serial(FirstOfMonth(target)) - LeadDays(target, startOfWeek)
    ensures Weekday(GridStart(target, startOfWeek)) == startOfWeek
    ensures forall j :: 0 < j <= LeadDays(target, startOfWeek) ==>
      Weekday(AddDays(GridStart(target, startOfWeek), j)) != startOfWeek
  {
    StartWeekday(target, startOfWeek);
    GridStartSerial(target, startOfWeek);
    var start := GridStart(target, startOfWeek);
    forall j | 0 < j <= LeadDays(target, startOfWeek)
      ensures Weekday(AddDays(start, j)) != startOfWeek
    {
      WeekdayShift(start, j);
    }
  }

  /**
    The grid ends on the day before `startOfWeek`, on the last of the month
    or at most six days after it, and no earlier day from the last of the
    month on is such a day.
  */
  lemma EndAlignment(target: Timestamp, startOfWeek: DayOfWeek)
    ensures 0 <= TrailDays(target, startOfWeek) <= 6
    ensures Serial(GridEnd(target, startOfWeek)) == Serial(LastOfMonth(target)) + TrailDays(target, startOfWeek)
    ensures Weekday(GridEnd(target, startOfWeek)) == (startOfWeek + 6) % 7
    ensures forall j :: 0 <= j < TrailDays(target, startOfWeek) ==>
      Weekday(AddDays(LastOfMonth(target), j)) != (startOfWeek + 6) % 7
  {
    EndWeekday(target, startOfWeek);
    GridEndSerial(target, startOfWeek);
    var last, end := LastOfMonth(target), GridEnd(target, startOfWeek);
    var trail := TrailDays(target, startOfWeek);
    forall j | 0 <= j < trail
      ensures Weekday(AddDays(last, j)) != (startOfWeek + 6) % 7
    {
      WeekdaysApart(AddDays(last, j), end, trail - j);
    }
  }

  /** The last of the month falls `MonthLength - 1` days of the week after the 1st. */
  lemma MonthWeekdays(target: Timestamp)
    ensures Serial(LastOfMonth(target)) == Serial(FirstOfMonth(target)) + (MonthLength(target) - 1)
    ensures Weekday(LastOfMonth(target)) == (Weekday(FirstOfMonth(target)) + (MonthLength(target) - 1)) % 7
  {
    WeekdayBySerial(FirstOfMonth(target), LastOfMonth(target), MonthLength(target) - 1);
  }

  /** The grid is a whole number of weeks, four to six of them, from start to end. */
  lemma GridLengthFacts(target: Timestamp, startOfWeek: DayOfWeek)
    ensures GridLength(target, startOfWeek) % 7 == 0
    ensures 28 <= GridLength(target, startOfWeek) <= 42
    ensures Serial(GridEnd(target, startOfWeek)) - Serial(GridStart(target, startOfWeek)) + 1 == GridLength(target, startOfWeek)
  {
    MonthWeekdays(target);
    GridStartSerial(target, startOfWeek);
    GridEndSerial(target, startOfWeek);
    LengthArithmetic(Weekday(FirstOfMonth(target)), Weekday(LastOfMonth(target)), startOfWeek, MonthLength(target),
      LeadDays(target, startOfWeek), TrailDays(target, startOfWeek), GridLength(target, startOfWeek));
  }

  // ---------------------------------------------------------------------------
  // Rows of consecutive dates

  /** Cell `i` of row `w` is the cell of date `7 * w + i`. */
  lemma RowCells(dates: seq<CivilDate>, count: nat, month: Month, events: seq<Event>, today: Timestamp)
    requires 7 * count <= |dates|
    ensures var g := Rows(dates, count, month, events, today);
      forall w, i :: 0 <= w < |g| && 0 <= i < 7 ==> g[w].days[i] == MakeDay(dates[7 * w + i], month, today, events)
  {
  }

  /** A row grows by the cell of the next date. */
  lemma RowPrefixSnoc(dates: seq<CivilDate>, w: int, j: nat, month: Month, events: seq<Event>, today: Timestamp)
    requires 0 <= w && 7 * w + j < |dates|
    ensures RowPrefix(dates, w, j + 1, month, events, today)
      == RowPrefix(dates, w, j, month, events, today) + [MakeDay(dates[7 * w + j], month, today, events)]
  {
  }

  /** The rows grow by a whole row. */
  lemma RowsSnoc(dates: seq<CivilDate>, count: nat, month: Month, events: seq<Event>, today: Timestamp)
    requires 7 * (count + 1) <= |dates|
    ensures Rows(dates, count + 1, month, events, today)
      == Rows(dates, count, month, events, today) + [Week(count + 1, RowPrefix(dates, count, 7, month, events, today))]
  {
  }

  /** The cell for the date `7 * w + j` days after the start extends row `w`. */
  lemma RowStep(dates: seq<CivilDate>, start: CivilDate, w: int, j: nat, month: Month, events: seq<Event>, today: Timestamp, current: CivilDate)
    requires Consecutive(dates, start) && 0 <= w && 7 * w + j < |dates|
    requires Serial(current) == Serial(start) + 7 * w + j
    ensures RowPrefix(dates, w, j + 1, month, events, today)
      == RowPrefix(dates, w, j, month, events, today) + [MakeDay(current, month, today, events)]
  {
    RowPrefixSnoc(dates, w, j, month, events, today);
    SerialInjective(current, dates[7 * w + j]);
  }

  /**
    One step of building the rows cell by cell: the cell for the next date
    extends the current row, and a completed row extends the rows.
  */
  lemma BuildStep(dates: seq<CivilDate>, start: CivilDate, month: Month, events: seq<Event>, today: Timestamp,
                  weeks: seq<Week>, days: seq<Day>, current: CivilDate)
    requires Consecutive(dates, start) && 7 * |weeks| + |days| < |dates| && |days| < 7
    requires Serial(current) == Serial(start) + 7 * |weeks| + |days|
    requires weeks == Rows(dates, |weeks|, month, events, today)
    requires days == RowPrefix(dates, |weeks|, |days|, month, events, today)
    ensures days + [MakeDay(current, month, today, events)] == RowPrefix(dates, |weeks|, |days| + 1, month, events, today)
    ensures |days| == 6 ==>
      weeks + [Week(|weeks| + 1, days + [MakeDay(current, month, today, events)])] == Rows(dates, |weeks| + 1, month, events, today)
  {
    RowStep(dates, start, |weeks|, |days|, month, events, today, current);
    if |days| == 6 {
      RowsSnoc(dates, |weeks|, month, events, today);
    }
  }

  lemma RowCellEvents(dates: seq<CivilDate>, count: nat, month: Month, events: seq<Event>, today: Timestamp, w: int, i: int)
    requires 7 * count <= |dates| && 0 <= w < count && 0 <= i < 7
    ensures var c := Rows(dates, count, month, events, today)[w].days[i];
      c.events == EventsOn(events, c.date)
  {
    assert Rows(dates, count, month, events, today)[w].days[i] == MakeDay(dates[7 * w + i], month, today, events);
  }

  lemma RowCellSerial(dates: seq<CivilDate>, start: CivilDate, count: nat, month: Month, events: seq<Event>, today: Timestamp, w: int, i: int)
    requires Consecutive(dates, start) && 7 * count <= |dates| && 0 <= w < count && 0 <= i < 7
    ensures Serial(Rows(dates, count, month, events, today)[w].days[i].date) == Serial(start) + 7 * w + i
  {
    assert Rows(dates, count, month, events, today)[w].days[i].date == dates[7 * w + i];
  }

  /** The first cell of the rows is `start`, the last the day `7 * count - 1` days later. */
  lemma RowsEnds(dates: seq<CivilDate>, start: CivilDate, count: nat, month: Month, events: seq<Event>, today: Timestamp, end: CivilDate)
    requires Consecutive(dates, start) && 7 * count <= |dates|
    requires 0 < count && Serial(end) == Serial(start) + 7 * count - 1
    ensures Rows(dates, count, month, events, today)[0].days[0].date == start
    ensures Rows(dates, count, month, events, today)[count - 1].days[6].date == end
  {
    var g := Rows(dates, count, month, events, today);
    var first, last := g[0].days[0].date, g[count - 1].days[6].date;
    RowCellSerial(dates, start, count, month, events, today, 0, 0);
    RowCellSerial(dates, start, count, month, events, today, count - 1, 6);
    SerialInjective(first, start);
    SerialInjective(last, end);
  }

  lemma RowDates(dates: seq<CivilDate>, start: CivilDate, count: nat, month: Month, events: seq<Event>, today: Timestamp)
    requires Consecutive(dates, start) && 7 * count <= |dates|
    ensures var g := Rows(dates, count, month, events, today);
      forall w, i :: 0 <= w < |g| && 0 <= i < 7 ==> Serial(g[w].days[i].date) == Serial(start) + 7 * w + i
  {
    forall w, i | 0 <= w < count && 0 <= i < 7 {
      RowCellSerial(dates, start, count, month, events, today, w, i);
    }
  }

  lemma RowsConsecutive(dates: seq<CivilDate>, start: CivilDate, count: nat, month: Month, events: seq<Event>, today: Timestamp)
    requires Consecutive(dates, start) && 7 * count <= |dates|
    ensures var g := Rows(dates, count, month, events, today);
      && (forall w, i :: 0 <= w < |g| && 0 <= i < 6 ==> g[w].days[i + 1].date == NextDay(g[w].days[i].date))
      && (forall w :: 0 <= w < |g| - 1 ==> g[w + 1].days[0].date == NextDay(g[w].days[6].date))
  {
    RowDates(dates, start, count, month, events, today);
    var g := Rows(dates, count, month, events, today);
    forall w, i | 0 <= w < |g| && 0 <= i < 6
      ensures g[w].days[i + 1].date == NextDay(g[w].days[i].date)
    {
      SerialInjective(g[w].days[i + 1].date, NextDay(g[w].days[i].date));
    }
    forall w | 0 <= w < |g| - 1
      ensures g[w + 1].days[0].date == NextDay(g[w].days[6].date)
    {
      SerialInjective(g[w + 1].days[0].date, NextDay(g[w].days[6].date));
    }
  }

  lemma RowsDistinct(dates: seq<CivilDate>, start: CivilDate, count: nat, month: Month, events: seq<Event>, today: Timestamp)
    requires Consecutive(dates, start) && 7 * count <= |dates|
    ensures var g := Rows(dates, count, month, events, today);
      forall w1, i1, w2, i2 ::
        (0 <= w1 < |g| && 0 <= i1 < 7 && 0 <= w2 < |g| && 0 <= i2 < 7 &&
         g[w1].days[i1].date == g[w2].days[i2].date) ==> w1 == w2 && i1 == i2
  {
    RowDates(dates, start, count, month, events, today);
  }

  lemma RowsContain(dates: seq<CivilDate>, start: CivilDate, count: nat, month: Month, events: seq<Event>, today: Timestamp, d: CivilDate)
    requires Consecutive(dates, start) && 7 * count <= |dates|
    ensures var g := Rows(dates, count, month, events, today);
      (exists w, i :: 0 <= w < |g| && 0 <= i < 7 && g[w].days[i].date == d)
      <==> Serial(start) <= Serial(d) < Serial(start) + 7 * count
  {
    RowDates(dates, start, count, month, events, today);
    var g := Rows(dates, count, month, events, today);
    if Serial(start) <= Serial(d) < Serial(start) + 7 * count {
      var k := Serial(d) - Serial(start);
      var w, i := k / 7, k % 7;
      assert 0 <= w < |g| && 0 <= i < 7;
      SerialInjective(g[w].days[i].date, d);
    }
  }

  /** Exactly the cells showing `today`'s date are "today". */
  lemma RowsToday(dates: seq<CivilDate>, start: CivilDate, count: nat, month: Month, events: seq<Event>, today: Timestamp)
    requires Consecutive(dates, start) && 7 * count <= |dates|
    ensures var g := Rows(dates, count, month, events, today);
      && (forall w, i :: 0 <= w < |g| && 0 <= i < 7 ==> (g[w].days[i].isToday <==> g[w].days[i].date == today.date))
      && (forall w1, i1, w2, i2 ::
            (0 <= w1 < |g| && 0 <= i1 < 7 && 0 <= w2 < |g| && 0 <= i2 < 7 &&
             g[w1].days[i1].isToday && g[w2].days[i2].isToday) ==> w1 == w2 && i1 == i2)
      && ((exists w, i :: 0 <= w < |g| && 0 <= i < 7 && g[w].days[i].isToday)
            <==> Serial(start) <= Serial(today.date) < Serial(start) + 7 * count)
  {
    RowCells(dates, count, month, events, today);
    RowsDistinct(dates, start, count, month, events, today);
    RowsContain(dates, start, count, month, events, today, today.date);
  }

  /** An event record is in exactly the cells of its start date. */
  lemma RowsEvents(dates: seq<CivilDate>, start: CivilDate, count: nat, month: Month, events: seq<Event>, today: Timestamp, e: Event)
    requires Consecutive(dates, start) && 7 * count <= |dates|
    requires e in events
    ensures var g := Rows(dates, count, month, events, today);
      && (forall w, i :: 0 <= w < |g| && 0 <= i < 7 ==> (e in g[w].days[i].events <==> StartsOn(e, g[w].days[i].date)))
      && ((exists w, i :: 0 <= w < |g| && 0 <= i < 7 && e in g[w].days[i].events)
            <==> e.start.Some? && Serial(start) <= Serial(e.start.value.date) < Serial(start) + 7 * count)
      && (forall w1, i1, w2, i2 ::
            (0 <= w1 < |g| && 0 <= i1 < 7 && 0 <= w2 < |g| && 0 <= i2 < 7 &&
             e in g[w1].days[i1].events && e in g[w2].days[i2].events) ==> w1 == w2 && i1 == i2)
  {
    RowCells(dates, count, month, events, today);
    RowsDistinct(dates, start, count, month, events, today);
    if e.start.Some? {
      RowsContain(dates, start, count, month, events, today, e.start.value.date);
    }
  }

  // ---------------------------------------------------------------------------
  // Shape of the grid

  /** The grid is `GridLength / 7` rows from the grid start, and its last cell is the grid end. */
  lemma GridRows(target: Timestamp, startOfWeek: DayOfWeek)
    ensures 4 <= GridLength(target, startOfWeek) / 7 <= 6
    ensures 7 * (GridLength(target, startOfWeek) / 7) == GridLength(target, startOfWeek)
    ensures Serial(GridEnd(target, startOfWeek)) == Serial(GridStart(target, startOfWeek)) + 7 * (GridLength(target, startOfWeek) / 7) - 1
  {
    GridLengthFacts(target, startOfWeek);
  }

  /**
    Every week has seven cells and the weeks are numbered 1, 2, … in order;
    cell `i` of week `w` shows the date `7 * w + i` days after the grid
    start, so the cells run through consecutive dates from the grid start to
    the grid end, and no cell is left over.
  */
  lemma GridShape(target: Timestamp, startOfWeek: DayOfWeek, events: seq<Event>, today: Timestamp)
    ensures var g := Grid(target, startOfWeek, events, today);
      && 4 <= |g| <= 6
      && 7 * |g| == GridLength(target, startOfWeek)
      && (forall w :: 0 <= w < |g| ==> g[w].weekNumber == w + 1 && |g[w].days| == 7)
      && (forall w, i :: 0 <= w < |g| && 0 <= i < 7 ==>
            Serial(g[w].days[i].date) == Serial(GridStart(target, startOfWeek)) + 7 * w + i)
      && g[0].days[0].date == GridStart(target, startOfWeek)
      && g[|g| - 1].days[6].date == GridEnd(target, startOfWeek)
  {
    var dates, start := GridDates(target, startOfWeek), GridStart(target, startOfWeek);
    var count := GridLength(target, startOfWeek) / 7;
    GridRows(target, startOfWeek);
    RowDates(dates, start, count, target.date.month, events, today);
    GridEnds(target, startOfWeek, events, today);
  }

  lemma GridEnds(target: Timestamp, startOfWeek: DayOfWeek, events: seq<Event>, today: Timestamp)
    ensures var g := Grid(target, startOfWeek, events, today);
      g[0].days[0].date == GridStart(target, startOfWeek) && g[|g| - 1].days[6].date == GridEnd(target, startOfWeek)
  {
    var dates, start, end := GridDates(target, startOfWeek), GridStart(target, startOfWeek), GridEnd(target, startOfWeek);
    var count := GridLength(target, startOfWeek) / 7;
    GridRows(target, startOfWeek);
    var g := Grid(target, startOfWeek, events, today);
    assert g == Rows(dates, count, target.date.month, events, today);
    RowsEnds(dates, start, count, target.date.month, events, today, end);
    assert g[|g| - 1] == g[count - 1];
  }

  /**
    What each cell carries: the day of the month of its date, the records
    starting on that date, "current month" when its month is the reference
    month, "today" when its date is today's, and the style derived from them.
  */
  lemma GridCellFields(target: Timestamp, startOfWeek: DayOfWeek, events: seq<Event>, today: Timestamp)
    ensures var g := Grid(target, startOfWeek, events, today);
      forall w, i :: 0 <= w < |g| && 0 <= i < 7 ==>
        && g[w].days[i].dayOfMonth == g[w].days[i].date.day
        && g[w].days[i].events == EventsOn(events, g[w].days[i].date)
        && (g[w].days[i].isCurrentMonth <==> g[w].days[i].date.month == target.date.month)
        && (g[w].days[i].isToday <==> g[w].days[i].date == today.date)
        && g[w].days[i].css == DayCss(g[w].days[i])
  {
    RowCells(GridDates(target, startOfWeek), GridLength(target, startOfWeek) / 7, target.date.month, events, today);
  }

  /** Cell `i` of week `w` is the grid's cell number `7 * w + i`, so facts about `Cell` hold for the weeks. */
  lemma GridCellIsCell(target: Timestamp, startOfWeek: DayOfWeek, events: seq<Event>, today: Timestamp, w: int, i: int)
    requires 0 <= w < |Grid(target, startOfWeek, events, today)| && 0 <= i < 7
    ensures 7 * w + i < GridLength(target, startOfWeek)
    ensures Grid(target, startOfWeek, events, today)[w].days[i] == Cell(target, startOfWeek, events, today, 7 * w + i)
  {
    GridRows(target, startOfWeek);
    RowCells(GridDates(target, startOfWeek), GridLength(target, startOfWeek) / 7, target.date.month, events, today);
  }

  /** Each cell shows the day after the one before it, also across a week boundary. */
  lemma GridConsecutive(target: Timestamp, startOfWeek: DayOfWeek, events: seq<Event>, today: Timestamp)
    ensures var g := Grid(target, startOfWeek, events, today);
      && (forall w, i :: 0 <= w < |g| && 0 <= i < 6 ==> g[w].days[i + 1].date == NextDay(g[w].days[i].date))
      && (forall w :: 0 <= w < |g| - 1 ==> g[w + 1].days[0].date == NextDay(g[w].days[6].date))
  {
    RowsConsecutive(GridDates(target, startOfWeek), GridStart(target, startOfWeek), GridLength(target, startOfWeek) / 7, target.date.month, events, today);
  }

  /** No date is shown twice. */
  lemma GridDatesDistinct(target: Timestamp, startOfWeek: DayOfWeek, events: seq<Event>, today: Timestamp)
    ensures var g := Grid(target, startOfWeek, events, today);
      forall w1, i1, w2, i2 ::
        (0 <= w1 < |g| && 0 <= i1 < 7 && 0 <= w2 < |g| && 0 <= i2 < 7 &&
         g[w1].days[i1].date == g[w2].days[i2].date) ==> w1 == w2 && i1 == i2
  {
    RowsDistinct(GridDates(target, startOfWeek), GridStart(target, startOfWeek), GridLength(target, startOfWeek) / 7, target.date.month, events, today);
  }

  /** A date is shown exactly when it lies between the grid start and the grid end. */
  lemma GridContainsDate(target: Timestamp, startOfWeek: DayOfWeek, events: seq<Event>, today: Timestamp, d: CivilDate)
    ensures var g := Grid(target, startOfWeek, events, today);
      (exists w, i :: 0 <= w < |g| && 0 <= i < 7 && g[w].days[i].date == d)
      <==> Serial(GridStart(target, startOfWeek)) <= Serial(d) <= Serial(GridEnd(target, startOfWeek))
  {
    var dates, start, count := GridDates(target, startOfWeek), GridStart(target, startOfWeek), GridLength(target, startOfWeek) / 7;
    GridRows(target, startOfWeek);
    assert Grid(target, startOfWeek, events, today) == Rows(dates, count, target.date.month, events, today);
    RowsContain(dates, start, count, target.date.month, events, today, d);
  }

  // ---------------------------------------------------------------------------
  // The month and the flags of each cell

  /** Two dates in the same month of different years are far apart. */
  lemma SameMonthOtherYear(a: CivilDate, b: CivilDate)
    requires a.month == b.month && a.year < b.year
    ensures Serial(b) - Serial(a) >= 334
  {
    YearsBefore(a.year, b.year);
  }

  lemma SameMonthNearby(a: CivilDate, b: CivilDate)
    requires a.month == b.month
    requires -7 < Serial(b) - Serial(a) < 7
    ensures a.year == b.year
  {
    if a.year < b.year {
      SameMonthOtherYear(a, b);
    } else if b.year < a.year {
      SameMonthOtherYear(b, a);
    }
  }

  /**
    A cell is marked as of the current month exactly when it lies between the
    1st and the last of the reference month, that is, when its year and month
    are those of the reference date (comparing the month alone suffices), and
    such a cell shows the day `k - LeadDays + 1` of the month.
  */
  lemma CurrentMonthCells(target: Timestamp, startOfWeek: DayOfWeek, events: seq<Event>, today: Timestamp, k: int)
    requires 0 <= k < GridLength(target, startOfWeek)
    ensures var c := Cell(target, startOfWeek, events, today, k);
      var lead := LeadDays(target, startOfWeek);
      && (c.isCurrentMonth <==> lead <= k < lead + MonthLength(target))
      && (c.isCurrentMonth <==> c.date.year == target.date.year && c.date.month == target.date.month)
      && (c.isCurrentMonth ==> c.date == Date(target.date.year, target.date.month, k - lead + 1))
  {
    var c := Cell(target, startOfWeek, events, today, k);
    var lead := LeadDays(target, startOfWeek);
    var n := MonthLength(target);
    var first, last := FirstOfMonth(target), LastOfMonth(target);
    GridStartSerial(target, startOfWeek);
    assert Serial(c.date) == Serial(first) - lead + k;
    assert Serial(last) == Serial(first) + n - 1;
    if lead <= k < lead + n {
      var d: CivilDate := Date(target.date.year, target.date.month, k - lead + 1);
      SerialInjective(c.date, d);
    } else if k < lead {
      SerialMonotone(c.date, first);
      if c.date.month == target.date.month {
        SameMonthNearby(c.date, first);
        assert false;
      }
    } else {
      SerialMonotone(last, c.date);
      if c.date.month == target.date.month {
        SameMonthNearby(last, c.date);
        assert false;
      }
    }
  }

  /** Every date of the reference month has its cell, in order from the first cell after the lead. */
  lemma MonthCovered(target: Timestamp, startOfWeek: DayOfWeek, events: seq<Event>, today: Timestamp, dd: int, k: int)
    requires 1 <= dd <= MonthLength(target)
    requires k == LeadDays(target, startOfWeek) + dd - 1
    ensures 0 <= k < GridLength(target, startOfWeek)
    ensures Cell(target, startOfWeek, events, today, k).date == Date(target.date.year, target.date.month, dd)
    ensures Cell(target, startOfWeek, events, today, k).isCurrentMonth
  {
    CurrentMonthCells(target, startOfWeek, events, today, k);
  }

  /** At most one cell is "today", and exactly one when today's date is shown. */
  lemma TodayCells(target: Timestamp, startOfWeek: DayOfWeek, events: seq<Event>, today: Timestamp)
    ensures var g := Grid(target, startOfWeek, events, today);
      && (forall w, i :: 0 <= w < |g| && 0 <= i < 7 ==> (g[w].days[i].isToday <==> g[w].days[i].date == today.date))
      && (forall w1, i1, w2, i2 ::
            (0 <= w1 < |g| && 0 <= i1 < 7 && 0 <= w2 < |g| && 0 <= i2 < 7 &&
             g[w1].days[i1].isToday && g[w2].days[i2].isToday) ==> w1 == w2 && i1 == i2)
      && ((exists w, i :: 0 <= w < |g| && 0 <= i < 7 && g[w].days[i].isToday)
            <==> Serial(GridStart(target, startOfWeek)) <= Serial(today.date) <= Serial(GridEnd(target, startOfWeek)))
  {
    var dates, start, count := GridDates(target, startOfWeek), GridStart(target, startOfWeek), GridLength(target, startOfWeek) / 7;
    GridRows(target, startOfWeek);
    assert Grid(target, startOfWeek, events, today) == Rows(dates, count, target.date.month, events, today);
    RowsToday(dates, start, count, target.date.month, events, today);
  }

  // ---------------------------------------------------------------------------
  // Events in the cells

  /**
    Each event record lands in the cell of its start date and in no other:
    it is in a cell exactly when it starts on that cell's date, so a record
    starting between the grid start and the grid end is in exactly one cell,
    and any other record, or one whose start does not parse, is in none.
  */
  lemma EventPlacement(target: Timestamp, startOfWeek: DayOfWeek, events: seq<Event>, today: Timestamp, e: Event)
    requires e in events
    ensures var g := Grid(target, startOfWeek, events, today);
      && (forall w, i :: 0 <= w < |g| && 0 <= i < 7 ==> (e in g[w].days[i].events <==> StartsOn(e, g[w].days[i].date)))
      && ((exists w, i :: 0 <= w < |g| && 0 <= i < 7 && e in g[w].days[i].events)
            <==> e.start.Some? && Serial(GridStart(target, startOfWeek)) <= Serial(e.start.value.date) <= Serial(GridEnd(target, startOfWeek)))
      && (forall w1, i1, w2, i2 ::
            (0 <= w1 < |g| && 0 <= i1 < 7 && 0 <= w2 < |g| && 0 <= i2 < 7 &&
             e in g[w1].days[i1].events && e in g[w2].days[i2].events) ==> w1 == w2 && i1 == i2)
  {
    var dates, start, count := GridDates(target, startOfWeek), GridStart(target, startOfWeek), GridLength(target, startOfWeek) / 7;
    GridRows(target, startOfWeek);
    assert Grid(target, startOfWeek, events, today) == Rows(dates, count, target.date.month, events, today);
    RowsEvents(dates, start, count, target.date.month, events, today, e);
  }
}
