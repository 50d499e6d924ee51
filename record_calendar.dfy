/**
  The `RecordCalendar` component: its reference date, the event records it
  was given and the grid of weeks it shows, with the operations that build
  the grid, search it and feed records into it.
*/
module Component {
  import opened Wrappers
  import opened CivilDates
  import opened CalendarTypes
  import opened DayStyle
  import opened CalendarGrid
  import opened GridLookup

  /**
    Week `w`, cell `i` is the first cell, in week-then-day order, holding an
    event record with identifier `id`.
  */
  ghost predicate FirstWithEvent(weeks: seq<Week>, id: string, w: int, i: int) {
    && 0 <= w < |weeks| && 0 <= i < |weeks[w].days|
    && HasEvent(weeks[w].days[i], id)
    && (forall w', i' :: 0 <= w' < w && 0 <= i' < |weeks[w'].days| ==> !HasEvent(weeks[w'].days[i'], id))
    && (forall i' :: 0 <= i' < i ==> !HasEvent(weeks[w].days[i'], id))
  }

  /** The records of `records`, in order, that `_processEventData` pushes into cell `i` of week `w`. */
  function Landing(weeks: seq<Week>, records: seq<Event>, w: int, i: int): seq<Event>
    requires WellShaped(weeks)
  {
    if |records| == 0 then []
    else
      var last := records[|records| - 1];
      Landing(weeks, records[..|records| - 1], w, i) + (if PushTarget(weeks, last) == Some((w, i)) then [last] else [])
  }

  /** The records reaching a cell are exactly those whose push target it is. */
  lemma {:induction false} LandingMembers(weeks: seq<Week>, records: seq<Event>, w: int, i: int)
    requires WellShaped(weeks)
    ensures forall e :: e in Landing(weeks, records, w, i) <==> e in records && PushTarget(weeks, e) == Some((w, i))
  {
    if |records| > 0 {
      var last := records[|records| - 1];
      assert records == records[..|records| - 1] + [last];
      LandingMembers(weeks, records[..|records| - 1], w, i);
    }
  }

  /** A cell after records `extra` are pushed into it, its style recomputed; a cell nothing reaches is left as it is. */
  function Pushed(day: Day, extra: seq<Event>): (r: Day)
    ensures r.date == day.date && r.dayOfMonth == day.dayOfMonth
    ensures r.isCurrentMonth == day.isCurrentMonth && r.isToday == day.isToday
    ensures r.events == day.events + extra
    ensures extra == [] ==> r == day
    ensures extra != [] ==> r.css == DayCss(r)
  {
    if extra == [] then day
    else
      var d := day.(events := day.events + extra);
      d.(css := DayCss(d))
  }

  /** One push of `_processEventData`: the record appended to the cell's events and the style recomputed. */
  function PushOne(day: Day, record: Event): (r: Day)
    ensures r.date == day.date && r.dayOfMonth == day.dayOfMonth
    ensures r.isCurrentMonth == day.isCurrentMonth && r.isToday == day.isToday
    ensures r.events == day.events + [record]
    ensures r.css == DayCss(r)
  {
    var d := day.(events := day.events + [record]);
    d.(css := DayCss(d))
  }

  lemma PushedSnoc(day: Day, extra: seq<Event>, record: Event)
    ensures Pushed(day, extra + [record]) == PushOne(Pushed(day, extra), record)
  {
    if extra != [] {
      assert (day.events + extra) + [record] == day.events + (extra + [record]);
    }
  }

  lemma LandingSnoc(weeks: seq<Week>, records: seq<Event>, record: Event, w: int, i: int)
    requires WellShaped(weeks)
    ensures Landing(weeks, records + [record], w, i)
      == Landing(weeks, records, w, i) + (if PushTarget(weeks, record) == Some((w, i)) then [record] else [])
  {
    assert (records + [record])[..|records|] == records;
  }

  /** The weeks with the cell at week `w`, position `i` replaced by `day`. */
  function SetCell(weeks: seq<Week>, w: nat, i: nat, day: Day): (r: seq<Week>)
    requires WellShaped(weeks) && w < |weeks| && i < 7
    ensures |r| == |weeks| && WellShaped(r)
    ensures forall v :: 0 <= v < |r| ==> r[v].weekNumber == weeks[v].weekNumber
    ensures forall v, j :: 0 <= v < |r| && 0 <= j < 7 ==>
      r[v].days[j] == if v == w && j == i then day else weeks[v].days[j]
  {
    weeks[w := weeks[w].(days := weeks[w].days[i := day])]
  }

  /** One cell across one push: the record is appended exactly when it lands there, and the cell keeps its invariant. */
  lemma PushCell(orig: Day, prev: Day, next: Day, before: seq<Week>, pushed: seq<Event>, record: Event, w: int, i: int)
    requires WellShaped(before)
    requires prev == Pushed(orig, Landing(before, pushed, w, i))
    requires next == if PushTarget(before, record) == Some((w, i)) then PushOne(prev, record) else prev
    ensures next == Pushed(orig, Landing(before, pushed + [record], w, i))
  {
    LandingSnoc(before, pushed, record, w, i);
    if PushTarget(before, record) == Some((w, i)) {
      PushedSnoc(orig, Landing(before, pushed, w, i), record);
    }
  }

  /** Two lists of weeks with the same dates in the same places. */
  ghost predicate SameDates(a: seq<Week>, b: seq<Week>) {
    && |a| == |b|
    && (forall w :: 0 <= w < |a| ==> |a[w].days| == |b[w].days|)
    && (forall w, i :: 0 <= w < |a| && 0 <= i < |a[w].days| ==> a[w].days[i].date == b[w].days[i].date)
  }

  lemma InWeekSameDates(x: Week, y: Week, t: Timestamp)
    requires |x.days| == 7 && |y.days| == 7
    requires x.days[0].date == y.days[0].date && x.days[6].date == y.days[6].date
    ensures InWeek(x, t) == InWeek(y, t)
  {
  }

  lemma {:induction false} FirstWeekFromSameDates(a: seq<Week>, b: seq<Week>, t: Timestamp, from: nat)
    requires WellShaped(a) && WellShaped(b) && SameDates(a, b) && from <= |a|
    ensures FirstWeekFrom(a, t, from) == FirstWeekFrom(b, t, from)
    decreases |a| - from
  {
    if from < |a| {
      var x, y := a[from], b[from];
      assert x.days[0].date == y.days[0].date && x.days[6].date == y.days[6].date;
      InWeekSameDates(x, y, t);
      FirstWeekFromSameDates(a, b, t, from + 1);
    }
  }

  /** Where a record is pushed depends on the dates of the cells alone. */
  lemma PushTargetSameDates(a: seq<Week>, b: seq<Week>, e: Event)
    requires WellShaped(a) && WellShaped(b) && SameDates(a, b)
    ensures PushTarget(a, e) == PushTarget(b, e)
  {
    if e.start.Some? {
      FirstWeekFromSameDates(a, b, e.start.value, 0);
    }
  }

  /** The grid after one record is pushed: into the cell `PushTarget` names, or nowhere. */
  function PushRecord(grid: seq<Week>, record: Event): (r: seq<Week>)
    requires WellShaped(grid)
    ensures WellShaped(r) && SameDates(r, grid)
    ensures forall v :: 0 <= v < |r| ==> r[v].weekNumber == grid[v].weekNumber
  {
    match PushTarget(grid, record)
    case None => grid
    case Some((w, i)) => SetCell(grid, w, i, PushOne(grid[w].days[i], record))
  }

  /** The grid after the records are pushed one after the other. */
  function PushAll(grid: seq<Week>, records: seq<Event>): (r: seq<Week>)
    requires WellShaped(grid)
    ensures WellShaped(r) && |r| == |grid|
  {
    if |records| == 0 then grid
    else PushRecord(PushAll(grid, records[..|records| - 1]), records[|records| - 1])
  }

  /**
    Pushing records changes no date and no week number, and leaves each cell
    its original with the records whose push target it is appended, in order
    (and untouched, style included, when none is).
  */
  lemma {:induction false} PushAllCells(before: seq<Week>, records: seq<Event>)
    requires WellShaped(before)
    ensures SameDates(PushAll(before, records), before)
    ensures forall w :: 0 <= w < |before| ==> PushAll(before, records)[w].weekNumber == before[w].weekNumber
    ensures forall w, i :: 0 <= w < |before| && 0 <= i < 7 ==>
      PushAll(before, records)[w].days[i] == Pushed(before[w].days[i], Landing(before, records, w, i))
  {
    if |records| > 0 {
      var pushed, record := records[..|records| - 1], records[|records| - 1];
      assert records == pushed + [record];
      PushAllCells(before, pushed);
      var mid := PushAll(before, pushed);
      assert PushAll(before, records) == PushRecord(mid, record);
      PushRecordCells(before, mid, pushed, record);
    }
  }

  /** The step of `PushAllCells`: pushing one more record appends it to the cell it lands in. */
  lemma PushRecordCells(before: seq<Week>, mid: seq<Week>, pushed: seq<Event>, record: Event)
    requires WellShaped(before) && WellShaped(mid) && SameDates(mid, before)
    requires forall w, i :: 0 <= w < |before| && 0 <= i < 7 ==>
      mid[w].days[i] == Pushed(before[w].days[i], Landing(before, pushed, w, i))
    ensures forall w, i :: 0 <= w < |before| && 0 <= i < 7 ==>
      PushRecord(mid, record)[w].days[i] == Pushed(before[w].days[i], Landing(before, pushed + [record], w, i))
  {
    PushTargetSameDates(mid, before, record);
    var next := PushRecord(mid, record);
    forall w, i | 0 <= w < |before| && 0 <= i < 7
      ensures next[w].days[i] == Pushed(before[w].days[i], Landing(before, pushed + [record], w, i))
    {
      PushCell(before[w].days[i], mid[w].days[i], next[w].days[i], before, pushed, record, w, i);
    }
  }

  // ---------------------------------------------------------------------------
  // Searching the grid by record identifier

  /** A cell holding the records that start on its date holds one with identifier `id` exactly when such a record starts then. */
  lemma CellHasEvent(c: Day, events: seq<Event>, id: string)
    requires c.events == EventsOn(events, c.date)
    ensures HasEvent(c, id) <==> exists e :: e in events && e.id == id && StartsOn(e, c.date)
  {
    if HasEvent(c, id) {
      var k :| 0 <= k < |c.events| && c.events[k].id == id;
      assert c.events[k] in EventsOn(events, c.date);
    }
    if exists e :: e in events && e.id == id && StartsOn(e, c.date) {
      var e :| e in events && e.id == id && StartsOn(e, c.date);
      assert e in c.events;
      MemberIndex(c.events, e);
    }
  }

  lemma MemberIndex(s: seq<Event>, e: Event)
    requires e in s
    ensures exists k :: 0 <= k < |s| && s[k] == e
  {
  }

  /**
    `g` shows the consecutive dates from `start` on, each cell holding the
    records of `events` that start on its date, and every date in that range
    has its cell.
  */
  ghost predicate Shows(g: seq<Week>, events: seq<Event>, start: CivilDate) {
    && WellShaped(g)
    && (forall w, i :: 0 <= w < |g| && 0 <= i < 7 ==>
          && g[w].days[i].events == EventsOn(events, g[w].days[i].date)
          && Serial(g[w].days[i].date) == Serial(start) + 7 * w + i)
  }

  /** In what `Shows` describes, every date of the range shown has its cell. */
  lemma ShownCellOf(g: seq<Week>, events: seq<Event>, start: CivilDate, d: CivilDate)
    requires Shows(g, events, start)
    requires Serial(start) <= Serial(d) < Serial(start) + 7 * |g|
    ensures exists w, i :: 0 <= w < |g| && 0 <= i < 7 && g[w].days[i].date == d
  {
    var k := Serial(d) - Serial(start);
    var w, i := k / 7, k % 7;
    assert k == 7 * w + i && 0 <= w < |g| && 0 <= i < 7;
    SerialInjective(g[w].days[i].date, d);
  }

  /** The grid shows its dates, from the grid start, with their records. */
  lemma GridShows(target: Timestamp, startOfWeek: DayOfWeek, events: seq<Event>, today: Timestamp)
    ensures Shows(Grid(target, startOfWeek, events, today), events, GridStart(target, startOfWeek))
    ensures Serial(GridStart(target, startOfWeek)) + 7 * |Grid(target, startOfWeek, events, today)| - 1
      == Serial(GridEnd(target, startOfWeek))
  {
    GridShowsCells(target, startOfWeek, events, today);
    GridShape(target, startOfWeek, events, today);
    GridRows(target, startOfWeek);
  }

  lemma GridShowsCells(target: Timestamp, startOfWeek: DayOfWeek, events: seq<Event>, today: Timestamp)
    ensures var g := Grid(target, startOfWeek, events, today);
      forall w, i :: 0 <= w < |g| && 0 <= i < 7 ==>
        && g[w].days[i].events == EventsOn(events, g[w].days[i].date)
        && Serial(g[w].days[i].date) == Serial(GridStart(target, startOfWeek)) + 7 * w + i
  {
    GridShape(target, startOfWeek, events, today);
    GridCellFields(target, startOfWeek, events, today);
  }

  /** In what `Shows` describes, a cell holds a record with identifier `id` exactly when one starts on its date. */
  lemma ShownHasEvent(g: seq<Week>, events: seq<Event>, start: CivilDate, id: string)
    requires Shows(g, events, start)
    ensures forall w, i :: 0 <= w < |g| && 0 <= i < 7 ==>
      (HasEvent(g[w].days[i], id) <==> exists e :: e in events && e.id == id && StartsOn(e, g[w].days[i].date))
  {
    forall w, i | 0 <= w < |g| && 0 <= i < 7
      ensures HasEvent(g[w].days[i], id) <==> exists e :: e in events && e.id == id && StartsOn(e, g[w].days[i].date)
    {
      CellHasEvent(g[w].days[i], events, id);
    }
  }

  /** In what `Shows` describes, some cell holds a record with identifier `id` exactly when one starts in the range shown. */
  lemma ShownEvent(g: seq<Week>, events: seq<Event>, start: CivilDate, id: string)
    requires Shows(g, events, start)
    ensures (exists w, i :: 0 <= w < |g| && 0 <= i < 7 && HasEvent(g[w].days[i], id))
      <==> exists e :: e in events && e.id == id && e.start.Some?
             && Serial(start) <= Serial(e.start.value.date) < Serial(start) + 7 * |g|
  {
    if exists w, i :: 0 <= w < |g| && 0 <= i < 7 && HasEvent(g[w].days[i], id) {
      var w, i :| 0 <= w < |g| && 0 <= i < 7 && HasEvent(g[w].days[i], id);
      ShownEventFromCell(g, events, start, id, w, i);
    }
    if exists e :: e in events && e.id == id && e.start.Some? && Serial(start) <= Serial(e.start.value.date) < Serial(start) + 7 * |g| {
      var e :| e in events && e.id == id && e.start.Some? && Serial(start) <= Serial(e.start.value.date) < Serial(start) + 7 * |g|;
      ShownCellFromEvent(g, events, start, id, e);
    }
  }

  /** A cell of what `Shows` describes holding identifier `id` comes from a record starting in the range shown. */
  lemma ShownEventFromCell(g: seq<Week>, events: seq<Event>, start: CivilDate, id: string, w: int, i: int)
    requires Shows(g, events, start)
    requires 0 <= w < |g| && 0 <= i < 7 && HasEvent(g[w].days[i], id)
    ensures exists e :: e in events && e.id == id && e.start.Some?
             && Serial(start) <= Serial(e.start.value.date) < Serial(start) + 7 * |g|
  {
    var c := g[w].days[i];
    assert c.events == EventsOn(events, c.date) && Serial(c.date) == Serial(start) + 7 * w + i;
    CellHasEvent(c, events, id);
    var e :| e in events && e.id == id && StartsOn(e, c.date);
    assert Serial(e.start.value.date) == Serial(start) + 7 * w + i;
  }

  /** A record starting in the range that `Shows` describes lands in a cell holding its identifier. */
  lemma ShownCellFromEvent(g: seq<Week>, events: seq<Event>, start: CivilDate, id: string, e: Event)
    requires Shows(g, events, start)
    requires e in events && e.id == id && e.start.Some?
    requires Serial(start) <= Serial(e.start.value.date) < Serial(start) + 7 * |g|
    ensures exists w, i :: 0 <= w < |g| && 0 <= i < 7 && HasEvent(g[w].days[i], id)
  {
    ShownCellOf(g, events, start, e.start.value.date);
    var w, i :| 0 <= w < |g| && 0 <= i < 7 && g[w].days[i].date == e.start.value.date;
    var c := g[w].days[i];
    assert c.events == EventsOn(events, c.date);
    CellHasEvent(c, events, id);
    assert StartsOn(e, c.date);
  }

  /** In what `Shows` describes, the first cell holding a record with identifier `id` shows the earliest such start. */
  lemma ShownFirstWithEvent(g: seq<Week>, events: seq<Event>, start: CivilDate, id: string, w: int, i: int)
    requires Shows(g, events, start) && FirstWithEvent(g, id, w, i)
    ensures exists e :: e in events && e.id == id && StartsOn(e, g[w].days[i].date)
    ensures forall e ::
      (e in events && e.id == id && e.start.Some? && Serial(start) <= Serial(e.start.value.date) < Serial(start) + 7 * |g|)
      ==> Serial(g[w].days[i].date) <= Serial(e.start.value.date)
  {
    ShownHasEvent(g, events, start, id);
    forall e | e in events && e.id == id && e.start.Some? && Serial(start) <= Serial(e.start.value.date) < Serial(start) + 7 * |g|
      ensures Serial(g[w].days[i].date) <= Serial(e.start.value.date)
    {
      ShownCellOf(g, events, start, e.start.value.date);
      var w', i' :| 0 <= w' < |g| && 0 <= i' < 7 && g[w'].days[i'].date == e.start.value.date;
      assert StartsOn(e, g[w'].days[i'].date);
      assert HasEvent(g[w'].days[i'], id);
      FirstWithEventOrder(g, id, w, i, w', i');
      assert 7 * w + i <= 7 * w' + i';
    }
  }

  /** A cell holding the identifier is not before the first one. */
  lemma FirstWithEventOrder(weeks: seq<Week>, id: string, w: int, i: int, w': int, i': int)
    requires FirstWithEvent(weeks, id, w, i)
    requires 0 <= w' < |weeks| && 0 <= i' < |weeks[w'].days| && HasEvent(weeks[w'].days[i'], id)
    ensures w < w' || (w == w' && i <= i')
  {
  }

  /** A cell of the grid holds a record with identifier `id` exactly when such a record starts on its date. */
  lemma GridHasEvent(target: Timestamp, startOfWeek: DayOfWeek, events: seq<Event>, today: Timestamp, id: string)
    ensures var g := Grid(target, startOfWeek, events, today);
      forall w, i :: 0 <= w < |g| && 0 <= i < 7 ==>
        (HasEvent(g[w].days[i], id) <==> exists e :: e in events && e.id == id && StartsOn(e, g[w].days[i].date))
  {
    GridShows(target, startOfWeek, events, today);
    ShownHasEvent(Grid(target, startOfWeek, events, today), events, GridStart(target, startOfWeek), id);
  }

  /** Some cell holds a record with identifier `id` exactly when such a record starts on a date the grid shows. */
  lemma GridShowsEvent(target: Timestamp, startOfWeek: DayOfWeek, events: seq<Event>, today: Timestamp, id: string)
    ensures var g := Grid(target, startOfWeek, events, today);
      (exists w, i :: 0 <= w < |g| && 0 <= i < 7 && HasEvent(g[w].days[i], id))
      <==> exists e :: e in events && e.id == id && e.start.Some?
             && Serial(GridStart(target, startOfWeek)) <= Serial(e.start.value.date) <= Serial(GridEnd(target, startOfWeek))
  {
    GridShows(target, startOfWeek, events, today);
    ShownEvent(Grid(target, startOfWeek, events, today), events, GridStart(target, startOfWeek), id);
  }

  /**
    The first cell holding a record with identifier `id` shows the earliest
    start date, among the dates the grid shows, of the records with that
    identifier.
  */
  lemma FirstWithEventOnGrid(target: Timestamp, startOfWeek: DayOfWeek, events: seq<Event>, today: Timestamp, id: string, w: int, i: int)
    requires FirstWithEvent(Grid(target, startOfWeek, events, today), id, w, i)
    ensures var d := Grid(target, startOfWeek, events, today)[w].days[i].date;
      && (exists e :: e in events && e.id == id && StartsOn(e, d))
      && (forall e ::
            (&& e in events && e.id == id && e.start.Some?
             && Serial(GridStart(target, startOfWeek)) <= Serial(e.start.value.date) <= Serial(GridEnd(target, startOfWeek)))
            ==> Serial(d) <= Serial(e.start.value.date))
  {
    GridShows(target, startOfWeek, events, today);
    ShownFirstWithEvent(Grid(target, startOfWeek, events, today), events, GridStart(target, startOfWeek), id, w, i);
  }

  /** A search for an identifier no record has finds no cell. */
  lemma NoRecordNoCell(target: Timestamp, startOfWeek: DayOfWeek, events: seq<Event>, today: Timestamp, id: string)
    requires forall e :: e in events ==> e.id != id
    ensures var g := Grid(target, startOfWeek, events, today);
      forall w, i :: 0 <= w < |g| && 0 <= i < 7 ==> !HasEvent(g[w].days[i], id)
  {
    GridHasEvent(target, startOfWeek, events, today, id);
  }

  // ---------------------------------------------------------------------------
  // Where `_processEventData` pushes records on the Sunday-first grid

  /**
    On the grid whose weeks start on Sunday, the records reaching a cell are
    those starting on its date, except that a record after midnight on a
    Saturday reaches no cell.
  */
  lemma LandingOnSundayGrid(target: Timestamp, events: seq<Event>, today: Timestamp, records: seq<Event>, w: int, i: int)
    requires 0 <= w < |Grid(target, 0, events, today)| && 0 <= i < 7
    ensures var g := Grid(target, 0, events, today);
      forall e :: e in Landing(g, records, w, i) <==>
        e in records && StartsOn(e, g[w].days[i].date) && (e.start.value.time == 0 || Weekday(e.start.value.date) != 6)
  {
    var g := Grid(target, 0, events, today);
    var start, end := GridStart(target, 0), GridEnd(target, 0);
    LandingMembers(g, records, w, i);
    GridShape(target, 0, events, today);
    GridDatesDistinct(target, 0, events, today);
    forall e | e in records
      ensures PushTarget(g, e) == Some((w, i)) <==>
        StartsOn(e, g[w].days[i].date) && (e.start.value.time == 0 || Weekday(e.start.value.date) != 6)
    {
      PushTargetOnSundayGrid(target, events, today, e);
      if StartsOn(e, g[w].days[i].date) {
        assert Serial(g[w].days[i].date) == Serial(start) + 7 * w + i;
        GridContainsDate(target, 0, events, today, e.start.value.date);
      }
    }
  }

  /**
    The loop of `generateCalendar`: walks the dates from `startDate` to
    `endDate`, a span of `count` whole weeks, building a cell for each
    (marked "today" against `today`, current against `month`) and grouping
    the cells into numbered weeks of seven.
  */
  method FillWeeks(startDate: CivilDate, endDate: CivilDate, ghost count: nat,
                   month: Month, events: seq<Event>, today: Timestamp)
    returns (weeks: seq<Week>)
    requires Serial(endDate) + 1 == Serial(startDate) + 7 * count
    ensures weeks == Rows(DatesFrom(startDate, 7 * count), count, month, events, today)
  {
    ghost var dates := DatesFrom(startDate, 7 * count);
    weeks := [];
    var currentWeek := Week(1, []);
    var currentDate := startDate;
    while NotAfter(Midnight(currentDate), Midnight(endDate))
      invariant Serial(currentDate) == Serial(startDate) + 7 * |weeks| + |currentWeek.days|
      invariant 7 * |weeks| + |currentWeek.days| <= 7 * count && |currentWeek.days| < 7
      invariant currentWeek.weekNumber == |weeks| + 1
      invariant weeks == Rows(dates, |weeks|, month, events, today)
      invariant currentWeek.days == RowPrefix(dates, |weeks|, |currentWeek.days|, month, events, today)
      decreases Serial(endDate) - Serial(currentDate)
    {
      AtOrAfterMidnight(currentDate, Midnight(endDate));
      var day := Day(currentDate, currentDate.day, EventsOn(events, currentDate),
        currentDate.month == month, currentDate == today.date, "");
      day := day.(css := DayCss(day));
      assert day == MakeDay(currentDate, month, today, events);
      BuildStep(dates, startDate, month, events, today, weeks, currentWeek.days, currentDate);
      currentWeek := currentWeek.(days := currentWeek.days + [day]);
      if |currentWeek.days| == 7 {
        weeks := weeks + [currentWeek];
        currentWeek := Week(currentWeek.weekNumber + 1, []);
      }
      currentDate := NextDay(currentDate);
    }
    AtOrAfterMidnight(currentDate, Midnight(endDate));
    assert |weeks| == count;
  }

  /**
    `generateCalendar`: the first and the last date shown are the 1st of
    `targetDate`'s month back to the start of its week and the last of the
    month on to the end of its week; the loop fills the weeks between.
  */
  method BuildWeeks(targetDate: Timestamp, startOfWeek: DayOfWeek, events: seq<Event>, today: Timestamp)
    returns (weeks: seq<Week>)
    ensures weeks == Grid(targetDate, startOfWeek, events, today)
  {
    var month: Month := targetDate.date.month;
    var startDate := GridStart(targetDate, startOfWeek);
    var endDate := GridEnd(targetDate, startOfWeek);
    ghost var count := GridLength(targetDate, startOfWeek) / 7;
    GridRows(targetDate, startOfWeek);
    weeks := FillWeeks(startDate, endDate, count, month, events, today);
    assert Grid(targetDate, startOfWeek, events, today) == Rows(GridDates(targetDate, startOfWeek), count, month, events, today);
  }

  class RecordCalendar {
    /** The date whose cell is marked "today" and whose month the records are shown in. */
    var refDate: Timestamp
    /** The grid shown. */
    var weeks: seq<Week>
    /** The records last received. */
    var eventData: seq<Event>

    /** Every week of the grid has its seven cells. */
    ghost predicate Valid()
      reads this
    {
      WellShaped(weeks)
    }

    /** A component with reference date `refDate` (the current date when none is set), no records and no grid. */
    constructor (refDate: Timestamp)
      ensures this.refDate == refDate && weeks == [] && eventData == []
      ensures Valid()
    {
      this.refDate := refDate;
      weeks := [];
      eventData := [];
    }

    /**
      `generateCalendar`: builds the grid of `targetDate`'s month with the
      reference date as "today" and shows it.
    */
    method GenerateCalendar(targetDate: Timestamp, startOfWeek: DayOfWeek, events: seq<Event>)
      modifies this
      ensures weeks == Grid(targetDate, startOfWeek, events, refDate)
      ensures refDate == old(refDate) && eventData == old(eventData)
      ensures Valid()
    {
      weeks := BuildWeeks(targetDate, startOfWeek, events, refDate);
    }

    /**
      `getDateForEvent`: the date of the first cell, in week-then-day order,
      holding a record with identifier `eventId`, or none when no cell does.
    */
    method GetDateForEvent(eventId: string) returns (r: Option<CivilDate>)
      ensures r.None? <==>
        forall w, i :: 0 <= w < |weeks| && 0 <= i < |weeks[w].days| ==> !HasEvent(weeks[w].days[i], eventId)
      ensures r.Some? ==> exists w, i :: FirstWithEvent(weeks, eventId, w, i) && r.value == weeks[w].days[i].date
    {
      for w := 0 to |weeks|
        invariant forall w', i' :: 0 <= w' < w && 0 <= i' < |weeks[w'].days| ==> !HasEvent(weeks[w'].days[i'], eventId)
      {
        var days := weeks[w].days;
        for i := 0 to |days|
          invariant forall i' :: 0 <= i' < i ==> !HasEvent(days[i'], eventId)
        {
          if HasEvent(days[i], eventId) {
            assert FirstWithEvent(weeks, eventId, w, i);
            return Some(days[i].date);
          }
        }
      }
      return None;
    }

    /**
      The first half of `_processEventData`: each record is pushed onto the
      events of the cell at its day of the week in the week found for its
      start, and that cell's style is recomputed.
    */
    method PushRecords(records: seq<Event>)
      requires Valid()
      modifies this
      ensures weeks == PushAll(old(weeks), records)
      ensures refDate == old(refDate) && eventData == old(eventData)
      ensures Valid()
    {
      var grid := weeks;
      ghost var before := weeks;
      for n := 0 to |records|
        invariant WellShaped(before) && WellShaped(grid)
        invariant grid == PushAll(before, records[..n])
      {
        var record := records[n];
        assert records[..n + 1][..n] == records[..n];
        var week := WeekForDate(grid, record.start);
        if week.Some? {
          var w := week.value;
          var i := Weekday(record.start.value.date);
          grid := SetCell(grid, w, i, PushOne(grid[w].days[i], record));
        }
      }
      assert records[..|records|] == records;
      weeks := grid;
    }

    /**
      `_processEventData`: no records, nothing happens; otherwise the records
      are pushed into the grid shown, which is then rebuilt for the month of
      the reference date, Sunday first, from the records last received.
    */
    method ProcessEventData(data: Option<seq<Event>>)
      requires Valid()
      modifies this
      ensures data.None? ==> weeks == old(weeks)
      ensures data.Some? ==> weeks == Grid(old(refDate), 0, old(eventData), old(refDate))
      ensures refDate == old(refDate) && eventData == old(eventData)
      ensures Valid()
    {
      if data.None? {
        return;
      }
      PushRecords(data.value);
      GenerateCalendar(refDate, 0, eventData);
    }

    /**
      The handler of the record wire: records received are kept as the
      component's records and processed; a result without records changes
      nothing.
    */
    method WiredRelatedEvents(data: Option<seq<Event>>)
      requires Valid()
      modifies this
      ensures data.Some? ==> eventData == data.value && weeks == Grid(refDate, 0, data.value, refDate)
      ensures data.None? ==> weeks == old(weeks) && eventData == old(eventData)
      ensures refDate == old(refDate)
      ensures Valid()
    {
      if data.Some? {
        eventData := data.value;
        ProcessEventData(data);
      }
    }
  }
}
