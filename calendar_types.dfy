/** The records the calendar component works on: event records, days and weeks of the grid. */
module CalendarTypes {
  import opened Wrappers
  import opened CivilDates

  /**
    An event record as the component reads it: its `Id`, its `StartDateTime`
    (`None` when the field does not parse to a date) and the rest of the
    record, which the component never looks into.
  */
  datatype Event = Event(id: string, start: Option<Timestamp>, subject: string)

  /**
    One cell of the grid. `dayOfMonth` is the number shown in the cell (the
    source stores it twice, as `day` and as `label`); `css` is the style
    class string of the cell.
  */
  datatype Day = Day(
    date: CivilDate,
    dayOfMonth: int,
    events: seq<Event>,
    isCurrentMonth: bool,
    isToday: bool,
    css: string)

  /** A row of the grid, numbered from 1. */
  datatype Week = Week(weekNumber: int, days: seq<Day>)

  /** Every week has the seven cells that the lookups index. */
  predicate WellShaped(weeks: seq<Week>) {
    forall w :: 0 <= w < |weeks| ==> |weeks[w].days| == 7
  }

  /** The event starts on civil date `d` (a start that does not parse is on no date). */
  predicate StartsOn(e: Event, d: CivilDate) {
    e.start.Some? && e.start.value.date == d
  }

  /** The day holds an event record whose identifier is `id`. */
  predicate HasEvent(day: Day, id: string) {
    exists k :: 0 <= k < |day.events| && day.events[k].id == id
  }
}
