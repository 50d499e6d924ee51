/**
  The component's own scenario: reference date 15 September 2025, records
  "event-1" starting on 1 September and "event-2" starting on 15 September,
  the grid built on their arrival with Sunday as the first day of the week.
*/
module SeptemberScenario {
  import opened Wrappers
  import opened CivilDates
  import opened CalendarTypes
  import opened DayStyle
  import opened CalendarGrid
  import opened GridLookup
  import opened Component

  const AugustThirtyFirst: CivilDate := Date(2025, 7, 31)
  const SeptemberFirst: CivilDate := Date(2025, 8, 1)
  const SeptemberFifteenth: CivilDate := Date(2025, 8, 15)

  /** The reference date: midnight at the start of 15 September 2025. */
  const Reference: Timestamp := Timestamp(SeptemberFifteenth, 0)

  const EventOne: Event := Event("event-1", Some(Timestamp(SeptemberFirst, 0)), "Event 1")
  const EventTwo: Event := Event("event-2", Some(Timestamp(SeptemberFifteenth, 0)), "Event 2")
  const Records: seq<Event> := [EventOne, EventTwo]

  /** The grid of the scenario. */
  function September(): (g: seq<Week>)
    ensures WellShaped(g)
  {
    Grid(Reference, 0, Records, Reference)
  }

  /**
    1 September 2025 is a Monday and 30 September a Tuesday, so the Sunday
    grid starts one day early, on 31 August, and ends four days late: 35
    cells.
  */
  lemma SeptemberLayout()
    ensures Weekday(SeptemberFirst) == 1
    ensures LeadDays(Reference, 0) == 1 && TrailDays(Reference, 0) == 4 && GridLength(Reference, 0) == 35
    ensures Serial(GridStart(Reference, 0)) == Serial(AugustThirtyFirst)
    ensures Serial(SeptemberFirst) == Serial(AugustThirtyFirst) + 1
    ensures Serial(SeptemberFifteenth) == Serial(AugustThirtyFirst) + 15
  {
    SeptemberWeekdays();
    assert FirstOfMonth(Reference) == SeptemberFirst;
    assert LastOfMonth(Reference) == Date(2025, 8, 30);
    assert LeadDays(Reference, 0) == (1 - 0 + 7) % 7;
    assert TrailDays(Reference, 0) == 6 - (2 - 0 + 7) % 7;
    StartAlignment(Reference, 0);
  }

  lemma SeptemberWeekdays()
    ensures Serial(SeptemberFirst) == 739494 && Weekday(SeptemberFirst) == 1
    ensures Serial(AugustThirtyFirst) == 739493 && Serial(SeptemberFifteenth) == 739508
    ensures Weekday(Date(2025, 8, 30)) == 2
  {
  }

  /** The fields every cell of a grid built for 15 September 2025 has. */
  ghost predicate SeptemberFields(c: Day) {
    && c.dayOfMonth == c.date.day
    && c.events == EventsOn(Records, c.date)
    && (c.isCurrentMonth <==> c.date.month == 8)
    && (c.isToday <==> c.date == SeptemberFifteenth)
    && c.css == DayCss(c)
  }

  /** What cell `i` of week `w` of the scenario's grid holds: the cell `7 * w + i` days after 31 August. */
  ghost predicate SeptemberCell(g: seq<Week>, w: int, i: int)
    requires 0 <= w < |g| && 0 <= i < |g[w].days|
  {
    Serial(g[w].days[i].date) == 739493 + 7 * w + i && SeptemberFields(g[w].days[i])
  }

  /** Five weeks of seven cells, 31 August to 4 October. */
  ghost predicate SeptemberShape(g: seq<Week>) {
    && |g| == 5 && WellShaped(g)
    && forall w, i {:trigger SeptemberCell(g, w, i)} :: 0 <= w < 5 && 0 <= i < 7 ==> SeptemberCell(g, w, i)
  }

  lemma SeptemberDates()
    ensures |September()| == 5
    ensures forall w, i :: 0 <= w < 5 && 0 <= i < 7 ==> Serial(September()[w].days[i].date) == 739493 + 7 * w + i
  {
    SeptemberLayout();
    SeptemberWeekdays();
    GridShape(Reference, 0, Records, Reference);
  }

  /** The fields of one cell of a grid built with the same reference date and today. */
  lemma CellFieldsAt(t: Timestamp, events: seq<Event>, g: seq<Week>, w: int, i: int)
    requires g == Grid(t, 0, events, t)
    requires 0 <= w < |g| && 0 <= i < |g[w].days|
    ensures var c := g[w].days[i];
      && c.dayOfMonth == c.date.day
      && c.events == EventsOn(events, c.date)
      && (c.isCurrentMonth <==> c.date.month == t.date.month)
      && (c.isToday <==> c.date == t.date)
      && c.css == DayCss(c)
  {
    GridCellFields(t, 0, events, t);
  }

  lemma SeptemberCellFields(g: seq<Week>)
    requires g == Grid(Reference, 0, Records, Reference)
    ensures forall w, i :: 0 <= w < |g| && 0 <= i < |g[w].days| ==> SeptemberFields(g[w].days[i])
  {
    forall w, i | 0 <= w < |g| && 0 <= i < |g[w].days|
      ensures SeptemberFields(g[w].days[i])
    {
      CellFieldsAt(Reference, Records, g, w, i);
    }
  }

  /** The grid built for the scenario has that shape. */
  lemma SeptemberCells()
    ensures SeptemberShape(September())
  {
    SeptemberDates();
    SeptemberCellFields(September());
  }

  /** The cell at offset `7 * w + i` from 31 August is the cell of date `d` exactly when `d` is that many days after 31 August. */
  lemma CellIsDate(g: seq<Week>, w: int, i: int, d: CivilDate)
    requires SeptemberShape(g)
    requires 0 <= w < 5 && 0 <= i < 7
    ensures g[w].days[i].date == d <==> Serial(d) == 739493 + 7 * w + i
  {
    assert SeptemberCell(g, w, i);
    if Serial(d) == 739493 + 7 * w + i {
      SerialInjective(g[w].days[i].date, d);
    }
  }

  const OctoberThird: CivilDate := Date(2025, 9, 3)
  const OctoberFourth: CivilDate := Date(2025, 9, 4)

  lemma OctoberDates()
    ensures Serial(OctoberThird) == 739493 + 33 && Serial(OctoberFourth) == 739493 + 34
  {
  }

  /** The day numbers the tests look at: 31, 1 in the first week and 3, 4 at the end of the last. */
  lemma SeptemberDayNumbers(g: seq<Week>)
    requires SeptemberShape(g)
    ensures g[0].days[0].dayOfMonth == 31 && g[0].days[1].dayOfMonth == 1
    ensures g[4].days[5].dayOfMonth == 3 && g[4].days[6].dayOfMonth == 4
  {
    SeptemberWeekdays();
    OctoberDates();
    assert SeptemberCell(g, 0, 0) && SeptemberCell(g, 0, 1);
    assert SeptemberCell(g, 4, 5) && SeptemberCell(g, 4, 6);
    CellIsDate(g, 0, 0, AugustThirtyFirst);
    CellIsDate(g, 0, 1, SeptemberFirst);
    CellIsDate(g, 4, 5, OctoberThird);
    CellIsDate(g, 4, 6, OctoberFourth);
  }

  /** The records of each cell: one on 1 September, one on 15 September, none elsewhere. */
  lemma SeptemberEvents(g: seq<Week>, w: int, i: int)
    requires SeptemberShape(g)
    requires 0 <= w < 5 && 0 <= i < 7
    ensures g[w].days[i].events == (if w == 0 && i == 1 then [EventOne] else if w == 2 && i == 1 then [EventTwo] else [])
    ensures g[w].days[i].isCurrentMonth <==> g[w].days[i].date.month == 8
    ensures g[w].days[i].isToday <==> w == 2 && i == 1
  {
    SeptemberWeekdays();
    var c := g[w].days[i];
    assert SeptemberCell(g, w, i);
    CellIsDate(g, w, i, SeptemberFirst);
    CellIsDate(g, w, i, SeptemberFifteenth);
    assert StartsOn(EventOne, c.date) <==> w == 0 && i == 1;
    assert StartsOn(EventTwo, c.date) <==> w == 2 && i == 1;
    assert Records == [EventOne] + [EventTwo];
    assert EventsOn([EventTwo], c.date) == (if StartsOn(EventTwo, c.date) then [EventTwo] else []);
  }

  /**
    The classes of the cells: "today" on 15 September alone, "selected" on
    1 and 15 September alone, and the style string lists the classes.
  */
  lemma SeptemberClasses(g: seq<Week>, w: int, i: int)
    requires SeptemberShape(g)
    requires 0 <= w < 5 && 0 <= i < 7
    ensures Today in ClassList(g[w].days[i]) <==> w == 2 && i == 1
    ensures Selected in ClassList(g[w].days[i]) <==> (w == 0 || w == 2) && i == 1
    ensures g[w].days[i].css == DayCss(g[w].days[i])
  {
    SeptemberEvents(g, w, i);
    assert SeptemberCell(g, w, i);
    if i == 1 && (w == 0 || w == 2) {
      SeptemberWeekdays();
      CellIsDate(g, w, i, if w == 0 then SeptemberFirst else SeptemberFifteenth);
    }
  }

  /** No cell of the grid holds a record with an identifier none of the records has. */
  lemma SeptemberMissing(g: seq<Week>, id: string)
    requires SeptemberShape(g)
    requires id != EventOne.id && id != EventTwo.id
    ensures forall w, i :: 0 <= w < |g| && 0 <= i < |g[w].days| ==> !HasEvent(g[w].days[i], id)
  {
    forall w, i | 0 <= w < |g| && 0 <= i < |g[w].days|
      ensures !HasEvent(g[w].days[i], id)
    {
      SeptemberEvents(g, w, i);
    }
  }

  /** The search for "event-1" stops in the cell of 1 September, a Monday. */
  lemma FoundEventOne(g: seq<Week>, found: Option<CivilDate>)
    requires SeptemberShape(g)
    requires found.None? <==>
      forall w, i :: 0 <= w < |g| && 0 <= i < |g[w].days| ==> !HasEvent(g[w].days[i], "event-1")
    requires found.Some? ==>
      exists w, i :: FirstWithEvent(g, "event-1", w, i) && found.value == g[w].days[i].date
    ensures found == Some(SeptemberFirst) && Weekday(SeptemberFirst) == 1
  {
    SeptemberWeekdays();
    SeptemberEvents(g, 0, 1);
    assert HasEvent(g[0].days[1], "event-1") by {
      assert g[0].days[1].events[0] == EventOne;
    }
    var w, i :| FirstWithEvent(g, "event-1", w, i) && found.value == g[w].days[i].date;
    SeptemberEvents(g, w, i);
    assert w == 0 && i == 1;
    CellIsDate(g, 0, 1, SeptemberFirst);
  }

  /** 15 September lies inside the grid, and it is a Monday, not the last day of a Sunday week. */
  lemma FifteenthInView()
    ensures Serial(GridStart(Reference, 0)) <= Serial(SeptemberFifteenth) <= Serial(GridEnd(Reference, 0))
    ensures Weekday(SeptemberFifteenth) != DayBefore(0)
  {
    SeptemberLayout();
    SeptemberWeekdays();
    assert Weekday(SeptemberFifteenth) == 1;
    EndAlignment(Reference, 0);
    assert LastOfMonth(Reference) == Date(2025, 8, 30);
  }

  lemma FifteenthRecords()
    ensures EventsOn(Records, SeptemberFifteenth) == [EventTwo]
  {
    assert Records == [EventOne] + [EventTwo];
    assert !StartsOn(EventOne, SeptemberFifteenth);
  }

  /** `getEventsForDate` at midnight of 15 September gives the record "event-2". */
  lemma FifteenthEvents()
    ensures EventsForDate(September(), Reference) == [EventTwo]
  {
    EventsForDateOnGrid(Reference, 0, Records, Reference, Reference);
    FifteenthInView();
    FifteenthRecords();
  }

  /** What the tests observe, from what the component's operations promise. */
  lemma SeptemberOutcome(shown: seq<Week>, missing: Option<CivilDate>, found: Option<CivilDate>, onFifteenth: seq<Event>)
    requires SeptemberShape(shown)
    requires missing.None? <==>
      forall w, i :: 0 <= w < |shown| && 0 <= i < |shown[w].days| ==> !HasEvent(shown[w].days[i], "event-3")
    requires found.None? <==>
      forall w, i :: 0 <= w < |shown| && 0 <= i < |shown[w].days| ==> !HasEvent(shown[w].days[i], "event-1")
    requires found.Some? ==>
      exists w, i :: FirstWithEvent(shown, "event-1", w, i) && found.value == shown[w].days[i].date
    requires onFifteenth == [EventTwo]
    ensures |shown| == 5 && WellShaped(shown)
    ensures shown[0].days[0].dayOfMonth == 31 && shown[0].days[1].dayOfMonth == 1
    ensures shown[4].days[5].dayOfMonth == 3 && shown[4].days[6].dayOfMonth == 4
    ensures |shown[0].days[1].events| == 1 && |shown[2].days[1].events| == 1
    ensures forall w, i :: 0 <= w < 5 && 0 <= i < 7 ==> (Today in ClassList(shown[w].days[i]) <==> w == 2 && i == 1)
    ensures forall w, i :: 0 <= w < 5 && 0 <= i < 7 ==> (Selected in ClassList(shown[w].days[i]) <==> (w == 0 || w == 2) && i == 1)
    ensures missing == None
    ensures found.Some? && found.value.year == 2025 && found.value.month == 8 && Weekday(found.value) == 1
    ensures |onFifteenth| == 1 && onFifteenth[0].id == "event-2"
  {
    SeptemberDayNumbers(shown);
    SeptemberEvents(shown, 0, 1);
    SeptemberEvents(shown, 2, 1);
    forall w, i | 0 <= w < 5 && 0 <= i < 7
      ensures (Today in ClassList(shown[w].days[i]) <==> w == 2 && i == 1)
      ensures (Selected in ClassList(shown[w].days[i]) <==> (w == 0 || w == 2) && i == 1)
    {
      SeptemberClasses(shown, w, i);
    }
    SeptemberMissing(shown, "event-3");
    FoundEventOne(shown, found);
  }

  /**
    The tests' scenario run through the component: with reference date
    15 September 2025 the records arrive; then a search for "event-3", a
    search for "event-1" and the records of 15 September.
  */
  method SeptemberOf2025() returns (shown: seq<Week>, missing: Option<CivilDate>, found: Option<CivilDate>, onFifteenth: seq<Event>)
    ensures |shown| == 5 && WellShaped(shown)
    ensures shown[0].days[0].dayOfMonth == 31 && shown[0].days[1].dayOfMonth == 1
    ensures shown[4].days[5].dayOfMonth == 3 && shown[4].days[6].dayOfMonth == 4
    ensures |shown[0].days[1].events| == 1 && |shown[2].days[1].events| == 1
    ensures forall w, i :: 0 <= w < 5 && 0 <= i < 7 ==> (Today in ClassList(shown[w].days[i]) <==> w == 2 && i == 1)
    ensures forall w, i :: 0 <= w < 5 && 0 <= i < 7 ==> (Selected in ClassList(shown[w].days[i]) <==> (w == 0 || w == 2) && i == 1)
    ensures missing == None
    ensures found.Some? && found.value.year == 2025 && found.value.month == 8 && Weekday(found.value) == 1
    ensures |onFifteenth| == 1 && onFifteenth[0].id == "event-2"
  {
    var calendar := new RecordCalendar(Reference);
    calendar.WiredRelatedEvents(Some(Records));
    shown := calendar.weeks;
    missing := calendar.GetDateForEvent("event-3");
    found := calendar.GetDateForEvent("event-1");
    onFifteenth := EventsForDate(calendar.weeks, Reference);
    assert shown == September();
    SeptemberCells();
    FifteenthEvents();
    SeptemberOutcome(shown, missing, found, onFifteenth);
  }
}
