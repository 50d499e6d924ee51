/**
  The lookups over a built grid (`_getWeekForDate`, `getEventsForDate`) and
  the cell into which `_processEventData` pushes a record, first over any
  list of seven-day weeks and then, through the grid lemmas, over the grid
  itself.
*/
module GridLookup {
  import opened Wrappers
  import opened CivilDates
  import opened CalendarTypes
  import opened CalendarGrid

  /**
    The range check of `_getWeekForDate`: the week's first cell at midnight
    is not after `t`, and `t` is not after the week's last cell at midnight.
  */
  predicate InWeek(week: Week, t: Timestamp)
    requires |week.days| == 7
  {
    Between(week.days[0].date, week.days[6].date, t)
  }

  /** `first <= t && t <= last`, both dates taken at midnight. */
  predicate Between(first: CivilDate, last: CivilDate, t: Timestamp) {
    NotAfter(Midnight(first), t) && NotAfter(t, Midnight(last))
  }

  /** The first week from index `from` on whose range holds `t`. */
  function FirstWeekFrom(weeks: seq<Week>, t: Timestamp, from: nat): (r: Option<nat>)
    requires WellShaped(weeks) && from <= |weeks|
    ensures r.Some? ==> from <= r.value < |weeks| && InWeek(weeks[r.value], t)
    ensures r.Some? ==> forall w :: from <= w < r.value ==> !InWeek(weeks[w], t)
    ensures r.None? <==> forall w :: from <= w < |weeks| ==> !InWeek(weeks[w], t)
    decreases |weeks| - from
  {
    if from == |weeks| then None
    else if InWeek(weeks[from], t) then Some(from)
    else FirstWeekFrom(weeks, t, from + 1)
  }

  /**
    `_getWeekForDate`: the index of the first week whose range holds the
    date; a date that does not parse compares false and is in no week.
  */
  function WeekForDate(weeks: seq<Week>, t: Option<Timestamp>): (r: Option<nat>)
    requires WellShaped(weeks)
    ensures r.Some? ==> t.Some? && r.value < |weeks| && InWeek(weeks[r.value], t.value)
    ensures r.Some? ==> forall w :: 0 <= w < r.value ==> !InWeek(weeks[w], t.value)
    ensures r.None? <==> t.None? || forall w :: 0 <= w < |weeks| ==> !InWeek(weeks[w], t.value)
  {
    if t.None? then None else FirstWeekFrom(weeks, t.value, 0)
  }

  /** The first cell from index `from` on that shows day-of-month `dom`. */
  function FirstDayFrom(days: seq<Day>, dom: int, from: nat): (r: Option<nat>)
    requires from <= |days|
    ensures r.Some? ==> from <= r.value < |days| && days[r.value].date.day == dom
    ensures r.Some? ==> forall i :: from <= i < r.value ==> days[i].date.day != dom
    ensures r.None? <==> forall i :: from <= i < |days| ==> days[i].date.day != dom
    decreases |days| - from
  {
    if from == |days| then None
    else if days[from].date.day == dom then Some(from)
    else FirstDayFrom(days, dom, from + 1)
  }

  /**
    `getEventsForDate`: the events of the cell, in the week found for `t`,
    whose day of the month is that of `t`, or none when there is no such week
    or cell.
  */
  function EventsForDate(weeks: seq<Week>, t: Timestamp): (r: seq<Event>)
    requires WellShaped(weeks)
    ensures r != [] ==>
      exists w, i :: 0 <= w < |weeks| && 0 <= i < 7 && InWeek(weeks[w], t)
        && weeks[w].days[i].date.day == t.date.day && r == weeks[w].days[i].events
  {
    match WeekForDate(weeks, Some(t))
    case None => []
    case Some(w) =>
      match FirstDayFrom(weeks[w].days, t.date.day, 0)
      case None => []
      case Some(i) => weeks[w].days[i].events
  }

  /**
    The cell into which `_processEventData` pushes record `e`: the week found
    for its start, at the position of the start's day of the week.
  */
  function PushTarget(weeks: seq<Week>, e: Event): (r: Option<(nat, DayOfWeek)>)
    requires WellShaped(weeks)
    ensures r.Some? <==> WeekForDate(weeks, e.start).Some?
    ensures r.Some? ==>
      r.value.0 < |weeks| && InWeek(weeks[r.value.0], e.start.value) && r.value.1 == Weekday(e.start.value.date)
  {
    match WeekForDate(weeks, e.start)
    case None => None
    case Some(w) => Some((w, Weekday(e.start.value.date)))
  }

  // ---------------------------------------------------------------------------
  // The lookups on rows of consecutive dates

  /**
    The range check in day offsets: a timestamp `k` days after the start of
    the rows, at `time` past midnight, is in row `w`.
  */
  predicate InSpan(k: int, time: int, w: int) {
    7 * w <= k && (k < 7 * w + 6 || (k == 7 * w + 6 && time == 0))
  }

  /** Only row `k / 7` can hold offset `k`, and it does unless `k` ends a row past midnight. */
  lemma SpanArithmetic(k: int, time: int, w: int)
    requires 0 <= k
    ensures InSpan(k, time, w) <==> w == k / 7 && (time == 0 || k % 7 != 6)
  {
    var q, r := k / 7, k % 7;
    assert k == 7 * q + r;
  }

  /** On rows from `start`, row `w` holds `t` as the offset of `t`'s date says. */
  lemma RowsInWeek(dates: seq<CivilDate>, start: CivilDate, count: nat, month: Month, events: seq<Event>, today: Timestamp, t: Timestamp, w: int)
    requires Consecutive(dates, start) && 7 * count <= |dates|
    requires 0 <= w < count
    ensures InWeek(Rows(dates, count, month, events, today)[w], t)
      <==> InSpan(Serial(t.date) - Serial(start), t.time, w)
  {
    var g := Rows(dates, count, month, events, today);
    var first, last := g[w].days[0].date, g[w].days[6].date;
    RowCellSerial(dates, start, count, month, events, today, w, 0);
    RowCellSerial(dates, start, count, month, events, today, w, 6);
    AtOrAfterMidnight(first, t);
    AtOrBeforeMidnight(t, last);
    if Serial(t.date) == Serial(last) {
      SerialInjective(t.date, last);
    }
  }

  /** When the rows hold `t` as offset `k` says, the first row found is row `k / 7`. */
  lemma WeekForDateBySpan(g: seq<Week>, t: Timestamp, k: int)
    requires WellShaped(g)
    requires forall w :: 0 <= w < |g| ==> (InWeek(g[w], t) <==> InSpan(k, t.time, w))
    ensures WeekForDate(g, Some(t))
      == if 0 <= k < 7 * |g| && (t.time == 0 || k % 7 != 6) then Some(k / 7) else None
  {
    var r := WeekForDate(g, Some(t));
    if r.Some? {
      SpanArithmetic(k, t.time, r.value);
    } else if 0 <= k < 7 * |g| && (t.time == 0 || k % 7 != 6) {
      SpanArithmetic(k, t.time, k / 7);
      assert false;
    }
  }

  /** The row found for `t` is determined by the offset `k` of `t`'s date alone. */
  lemma RowsWeekForDate(dates: seq<CivilDate>, start: CivilDate, count: nat, month: Month, events: seq<Event>, today: Timestamp, t: Timestamp, k: int)
    requires Consecutive(dates, start) && 7 * count <= |dates|
    requires k == Serial(t.date) - Serial(start)
    ensures WeekForDate(Rows(dates, count, month, events, today), Some(t))
      == if 0 <= k < 7 * count && (t.time == 0 || k % 7 != 6) then Some(k / 7) else None
  {
    var g := Rows(dates, count, month, events, today);
    forall w | 0 <= w < |g|
      ensures InWeek(g[w], t) <==> InSpan(k, t.time, w)
    {
      RowsInWeek(dates, start, count, month, events, today, t, w);
    }
    WeekForDateBySpan(g, t, k);
  }

  /** The seven cells of a row show seven different days of the month. */
  lemma RowDaysOfMonthDistinct(dates: seq<CivilDate>, start: CivilDate, count: nat, month: Month, events: seq<Event>, today: Timestamp, w: int, i: int, j: int)
    requires Consecutive(dates, start) && 7 * count <= |dates|
    requires 0 <= w < count && 0 <= i < j < 7
    ensures Rows(dates, count, month, events, today)[w].days[i].date.day
      != Rows(dates, count, month, events, today)[w].days[j].date.day
  {
    var g := Rows(dates, count, month, events, today);
    RowCellSerial(dates, start, count, month, events, today, w, i);
    RowCellSerial(dates, start, count, month, events, today, w, j);
    DaysOfMonthApart(g[w].days[i].date, g[w].days[j].date);
  }

  /** In a row that shows date `d` at position `i`, the day-of-month search finds position `i`. */
  lemma RowsDayForDate(dates: seq<CivilDate>, start: CivilDate, count: nat, month: Month, events: seq<Event>, today: Timestamp, w: int, d: CivilDate, i: int)
    requires Consecutive(dates, start) && 7 * count <= |dates|
    requires 0 <= w < count && 0 <= i < 7
    requires i == Serial(d) - Serial(start) - 7 * w
    ensures Rows(dates, count, month, events, today)[w].days[i].date == d
    ensures FirstDayFrom(Rows(dates, count, month, events, today)[w].days, d.day, 0) == Some(i)
  {
    var g := Rows(dates, count, month, events, today);
    assert g[w].days[i].date == d by {
      RowCellSerial(dates, start, count, month, events, today, w, i);
      SerialInjective(g[w].days[i].date, d);
    }
    var r := FirstDayFrom(g[w].days, d.day, 0);
    assert r.Some? && r.value <= i;
    if r.value < i {
      RowDaysOfMonthDistinct(dates, start, count, month, events, today, w, r.value, i);
      assert false;
    }
  }

  // ---------------------------------------------------------------------------
  // The lookups on the grid

  /** Arithmetic on weekday numbers: position 6 of a week that starts on `s` is the day before `s`. */
  lemma LastPositionArithmetic(s: DayOfWeek, k: nat)
    ensures (s + k) % 7 == (s + 6) % 7 <==> k % 7 == 6
  {
    var q := k / 7;
    assert k == 7 * q + k % 7;
    ModSevenShift(s + k % 7, 7 * q);
  }

  /** A date `k` days after the grid start is the last of its week exactly when it falls on the day before `startOfWeek`. */
  lemma LastOfGridWeek(target: Timestamp, startOfWeek: DayOfWeek, d: CivilDate, k: nat)
    requires k == Serial(d) - Serial(GridStart(target, startOfWeek))
    ensures k % 7 == 6 <==> Weekday(d) == DayBefore(startOfWeek)
  {
    var start := GridStart(target, startOfWeek);
    StartWeekday(target, startOfWeek);
    WeekdayBySerial(start, d, k);
    LastPositionArithmetic(startOfWeek, k);
    DayBeforeMod(startOfWeek);
  }

  /** A date at position `i` of week `w` of the grid falls on day `startOfWeek + i` of the week. */
  lemma WeekdayInGridWeek(target: Timestamp, startOfWeek: DayOfWeek, d: CivilDate, w: nat, i: nat)
    requires i == Serial(d) - Serial(GridStart(target, startOfWeek)) - 7 * w
    ensures Weekday(d) == (startOfWeek + i) % 7
    ensures startOfWeek == 0 && i < 7 ==> Weekday(d) == i
  {
    var start := GridStart(target, startOfWeek);
    var k := 7 * w + i;
    StartWeekday(target, startOfWeek);
    WeekdayBySerial(start, d, k);
    WholeWeeksArithmetic(startOfWeek, w, i, Weekday(d));
  }

  lemma WholeWeeksArithmetic(s: DayOfWeek, w: nat, i: nat, x: int)
    requires x == (s + (7 * w + i)) % 7
    ensures x == (s + i) % 7
    ensures s == 0 && i < 7 ==> x == i
  {
    var q := (s + i) / 7;
    assert s + i == 7 * q + (s + i) % 7;
    assert s + (7 * w + i) == 7 * (w + q) + (s + i) % 7;
  }

  /** `t`'s date lies in week `w` of a grid from `start`. */
  predicate InGridWeek(start: CivilDate, w: int, d: CivilDate) {
    7 * w <= Serial(d) - Serial(start) < 7 * w + 7
  }

  /**
    `_getWeekForDate` on the grid finds a week exactly when `t`'s date is
    shown, except that a time after midnight on the last day of a week falls
    outside that week (the comparison is against the last cell's midnight)
    and, that day being the last of its week, in no week at all; the week it
    finds is the one showing `t`'s date.
  */
  lemma WeekForDateOnGrid(target: Timestamp, startOfWeek: DayOfWeek, events: seq<Event>, today: Timestamp, t: Timestamp)
    ensures var r := WeekForDate(Grid(target, startOfWeek, events, today), Some(t));
      && (r.Some? <==>
            && Serial(GridStart(target, startOfWeek)) <= Serial(t.date) <= Serial(GridEnd(target, startOfWeek))
            && (t.time == 0 || Weekday(t.date) != DayBefore(startOfWeek)))
      && (r.Some? ==> InGridWeek(GridStart(target, startOfWeek), r.value, t.date))
  {
    var dates, start := GridDates(target, startOfWeek), GridStart(target, startOfWeek);
    var count := GridLength(target, startOfWeek) / 7;
    var k := Serial(t.date) - Serial(start);
    GridRows(target, startOfWeek);
    assert Grid(target, startOfWeek, events, today) == Rows(dates, count, target.date.month, events, today);
    RowsWeekForDate(dates, start, count, target.date.month, events, today, t, k);
    if 0 <= k {
      LastOfGridWeek(target, startOfWeek, t.date, k);
    }
  }

  /**
    `getEventsForDate` on the grid gives exactly the records that start on
    `t`'s date, in input order, whenever `_getWeekForDate` finds that date's
    week, and nothing otherwise.
  */
  lemma EventsForDateOnGrid(target: Timestamp, startOfWeek: DayOfWeek, events: seq<Event>, today: Timestamp, t: Timestamp)
    ensures EventsForDate(Grid(target, startOfWeek, events, today), t)
      == if Serial(GridStart(target, startOfWeek)) <= Serial(t.date) <= Serial(GridEnd(target, startOfWeek))
           && (t.time == 0 || Weekday(t.date) != DayBefore(startOfWeek))
         then EventsOn(events, t.date)
         else []
  {
    var dates, start := GridDates(target, startOfWeek), GridStart(target, startOfWeek);
    var count := GridLength(target, startOfWeek) / 7;
    GridRows(target, startOfWeek);
    assert Grid(target, startOfWeek, events, today) == Rows(dates, count, target.date.month, events, today);
    RowsEventsForDate(dates, start, count, target.date.month, events, today, t);
    WeekForDateOnGrid(target, startOfWeek, events, today, t);
  }

  /** On rows from `start`, `getEventsForDate` gives the records starting on `t`'s date whenever `t`'s week is found. */
  lemma RowsEventsForDate(dates: seq<CivilDate>, start: CivilDate, count: nat, month: Month, events: seq<Event>, today: Timestamp, t: Timestamp)
    requires Consecutive(dates, start) && 7 * count <= |dates|
    ensures EventsForDate(Rows(dates, count, month, events, today), t)
      == if WeekForDate(Rows(dates, count, month, events, today), Some(t)).Some? then EventsOn(events, t.date) else []
  {
    var g := Rows(dates, count, month, events, today);
    var k := Serial(t.date) - Serial(start);
    RowsWeekForDate(dates, start, count, month, events, today, t, k);
    var r := WeekForDate(g, Some(t));
    if r.Some? {
      RowsEventsAtCell(dates, start, count, month, events, today, t, r.value, k - 7 * r.value);
    }
  }

  /** Once `t`'s week is found at row `w`, `getEventsForDate` gives the records of `t`'s cell in that row. */
  lemma RowsEventsAtCell(dates: seq<CivilDate>, start: CivilDate, count: nat, month: Month, events: seq<Event>, today: Timestamp,
                         t: Timestamp, w: int, i: int)
    requires Consecutive(dates, start) && 7 * count <= |dates|
    requires 0 <= w < count && 0 <= i < 7 && i == Serial(t.date) - Serial(start) - 7 * w
    requires WeekForDate(Rows(dates, count, month, events, today), Some(t)) == Some(w)
    ensures EventsForDate(Rows(dates, count, month, events, today), t) == EventsOn(events, t.date)
  {
    RowsDayForDate(dates, start, count, month, events, today, w, t.date, i);
    RowCellEvents(dates, count, month, events, today, w, i);
  }

  /** The cell at position `i` of week `w` of the grid shows the date that many days after the grid start. */
  lemma GridCellAt(target: Timestamp, startOfWeek: DayOfWeek, events: seq<Event>, today: Timestamp, d: CivilDate, w: nat, i: nat)
    requires w < GridLength(target, startOfWeek) / 7 && i < 7
    requires i == Serial(d) - Serial(GridStart(target, startOfWeek)) - 7 * w
    ensures Grid(target, startOfWeek, events, today)[w].days[i].date == d
  {
    var dates, start := GridDates(target, startOfWeek), GridStart(target, startOfWeek);
    var count := GridLength(target, startOfWeek) / 7;
    GridRows(target, startOfWeek);
    var g := Rows(dates, count, target.date.month, events, today);
    assert Grid(target, startOfWeek, events, today) == g;
    RowCellSerial(dates, start, count, target.date.month, events, today, w, i);
    SerialInjective(g[w].days[i].date, d);
  }

  /** On a Sunday-start grid, the cell at the day-of-week position in the week found is the cell of the date. */
  lemma PushCellOnSundayGrid(target: Timestamp, events: seq<Event>, today: Timestamp, t: Timestamp, w: nat)
    requires WeekForDate(Grid(target, 0, events, today), Some(t)) == Some(w)
    ensures Grid(target, 0, events, today)[w].days[Weekday(t.date)].date == t.date
  {
    var i := Serial(t.date) - Serial(GridStart(target, 0)) - 7 * w;
    assert 0 <= i < 7 && w < GridLength(target, 0) / 7 by {
      WeekForDateOnGrid(target, 0, events, today, t);
      GridRows(target, 0);
    }
    assert Weekday(t.date) == i by {
      WeekdayInGridWeek(target, 0, t.date, w, i);
    }
    GridCellAt(target, 0, events, today, t.date, w, i);
  }

  /** `WeekForDateOnGrid` for a grid whose weeks start on Sunday. */
  lemma WeekForDateOnSundayGrid(target: Timestamp, events: seq<Event>, today: Timestamp, t: Timestamp)
    ensures WeekForDate(Grid(target, 0, events, today), Some(t)).Some? <==>
      && Serial(GridStart(target, 0)) <= Serial(t.date) <= Serial(GridEnd(target, 0))
      && (t.time == 0 || Weekday(t.date) != 6)
  {
    WeekForDateOnGrid(target, 0, events, today, t);
  }

  /**
    On a grid whose weeks start on Sunday, `_processEventData` pushes a
    record into the cell of its own start date, and it pushes it somewhere
    exactly when `_getWeekForDate` finds the week of that date.
  */
  lemma PushTargetOnSundayGrid(target: Timestamp, events: seq<Event>, today: Timestamp, e: Event)
    ensures var g := Grid(target, 0, events, today);
      var p := PushTarget(g, e);
      && (p.Some? <==>
            && e.start.Some?
            && Serial(GridStart(target, 0)) <= Serial(e.start.value.date) <= Serial(GridEnd(target, 0))
            && (e.start.value.time == 0 || Weekday(e.start.value.date) != 6))
      && (p.Some? ==> g[p.value.0].days[p.value.1].date == e.start.value.date)
  {
    if e.start.Some? {
      WeekForDateOnSundayGrid(target, events, today, e.start.value);
      if PushTarget(Grid(target, 0, events, today), e).Some? {
        PushCellOnSundayGrid(target, events, today, e.start.value, PushTarget(Grid(target, 0, events, today), e).value.0);
      }
    }
  }
}
