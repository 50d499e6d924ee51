# RecordCalendar: a verified model of the month grid

The `RecordCalendar` Lightning web component shows the event records related
to a Salesforce record on a month calendar. Its core is a small date engine,
which this project models and proves:

- `generateCalendar` builds the month grid. It steps back from the 1st of the
  month to the start of its week and on from the last day to the end of its
  week. It then walks the dates one day at a time. Each date becomes a cell
  with its day number, its records, "current month" and "today" flags and a
  style class string, and the cells are grouped into numbered weeks of seven.
- `_setDayCss` derives a cell's style classes.
- `getDateForEvent` searches the grid for a record identifier, week by week
  and day by day.
- `_getWeekForDate` finds the week whose range holds a timestamp.
- `getEventsForDate` returns the records of the cell for a timestamp.
- `_processEventData` pushes each incoming record into the cell at its day
  of the week in the week found for it. It then rebuilds the whole grid with
  Sunday as the first day of the week.
- The record-wire handler keeps the records received and processes them.

Dates are civil dates of the proleptic Gregorian calendar (`CivilDates`):

- months count from 0, as JavaScript `Date` counts them;
- a serial day number gives the order, the day of the week and day stepping;
- a timestamp is a date plus milliseconds since its midnight, and
  timestamps are compared the way `Date` values are compared.

The component itself (`Component.RecordCalendar`) is a class with the
`refDate`, `weeks` and `eventData` fields. Its methods change those fields
with `modifies this` and state the new state in full. The loop of
`generateCalendar` is the method `Component.FillWeeks`, which
`Component.BuildWeeks` calls with the first and the last date shown. The two
are proved to produce exactly `CalendarGrid.Grid`, a value whose properties are
proved as lemmas:

- alignment of both ends;
- four to six weeks of consecutive dates;
- each record in exactly the cell of its start date, in input order;
- exactly one "today" cell when today is shown;
- the style precedence.

Behaviour of the code that the model keeps and proves:

- **After midnight at the end of a week.** `_getWeekForDate` compares the
  full timestamp with the last cell's date at midnight. A time after 00:00
  on the last day of a week therefore falls outside that week, and, since
  that day is in no other week, in none.
  - `GridLookup.WeekForDateOnGrid` and `GridLookup.EventsForDateOnGrid`
    state exactly when a week, and a cell's records, are found.
  - `Component.LandingOnSundayGrid` shows that such a record (after midnight
    on a Saturday) is pushed into no cell.
- **The push step is overwritten.** `_processEventData` pushes records into
  the current grid and then rebuilds the grid from `eventData`, so only the
  rebuild decides what is shown. The body of
  `Component.RecordCalendar.ProcessEventData` performs both steps (the push
  step is `Component.RecordCalendar.PushRecords`, whose contract states it);
  the contract of `ProcessEventData` states that only the rebuild remains.
- **Push target when the week does not start on Sunday.** The push goes to
  position `getDay()` of the week found. The model pushes there too, for any
  grid. On a Sunday-first grid that position is the cell of the record's own
  date (`GridLookup.PushTargetOnSundayGrid`).

The code has no month navigation and no rebuild that keeps a previous
grid's records.

A single civil-date convention replaces the source's mixed conventions:

- the year is read locally and the month in UTC (lines 132-133);
- records are matched to cells by UTC date (lines 165-167) and by local
  day of the month (line 49);
- "today" is compared in UTC (lines 173-175).

With one convention these all collapse. "Today" is the component's
`refDate`, as the code has it, not the real current date.

All source paths below are relative to the repository root.

## Model

| member | source | states |
|---|---|---|
| CivilDates.DaysInMonth | force-app/main/default/lwc/recordCalendar/recordCalendar.js:135 | A month has 28 to 31 days, and 29 exactly for February of a leap year (the day `new Date(year, month + 1, 0)` lands on). |
| CivilDates.NextDay | force-app/main/default/lwc/recordCalendar/recordCalendar.js:187 | The date after `d` (`setDate(getDate() + 1)`) has the next serial number, rolling over month and year ends. |
| CivilDates.PrevDay | force-app/main/default/lwc/recordCalendar/recordCalendar.js:144 | The date before `d` has the previous serial number. |
| CivilDates.NextPrevInverse | force-app/main/default/lwc/recordCalendar/recordCalendar.js:144-150 | Stepping forward and back by one day are inverse to each other. |
| CivilDates.AddDays | force-app/main/default/lwc/recordCalendar/recordCalendar.js:144-150 | `setDate(getDate() + n)` normalised: the date `n` days later (earlier for negative `n`), by serial number. |
| CivilDates.AddDaysBySerial | force-app/main/default/lwc/recordCalendar/recordCalendar.js:144-150 | A shifted date is the date with the shifted serial number, and no other date. |
| CivilDates.DatesFrom | force-app/main/default/lwc/recordCalendar/recordCalendar.js:152-188 | The dates the loop visits from `d`: `n` consecutive dates, date `k` being `k` days after `d`. |
| CivilDates.SerialMonotone | force-app/main/default/lwc/recordCalendar/recordCalendar.js:154 | The serial number orders dates as the calendar does (year, then month, then day), in both directions. |
| CivilDates.SerialInjective | force-app/main/default/lwc/recordCalendar/recordCalendar.js:154 | Two dates with one serial number are the same date. |
| CivilDates.WeekdayBySerial | force-app/main/default/lwc/recordCalendar/recordCalendar.js:142 | A date `n` days after another falls `n` places later in the week (`getDay()`). |
| CivilDates.WeekdayAfter | force-app/main/default/lwc/recordCalendar/recordCalendar.js:142-150 | Shifting a date by `n` days moves its day of the week `n` places round the week. |
| CivilDates.WeekdaysApart | force-app/main/default/lwc/recordCalendar/recordCalendar.js:142-150 | Two dates one to six days apart fall on different days of the week. |
| CivilDates.DaysOfMonthApart | force-app/main/default/lwc/recordCalendar/recordCalendar.js:49 | Two dates one to six days apart have different days of the month, across month and year ends too. |
| CivilDates.NearbyAcrossYears | force-app/main/default/lwc/recordCalendar/recordCalendar.js:49 | Dates of different years at most six days apart are late December and early January. |
| CivilDates.DayBeforeMod | force-app/main/default/lwc/recordCalendar/recordCalendar.js:149 | The last day of a week starting on `s` is `(s + 6) % 7`. |
| CivilDates.Weekday | force-app/main/default/lwc/recordCalendar/recordCalendar.js:142-148 | `getDay()`, defined on serial numbers as `(Serial(d) + 1) % 7`, so that 0 is a Sunday; `WeekdayBySerial` and `WeekdayAfter` state how it moves with the date. |
| CivilDates.Millis | force-app/main/default/lwc/recordCalendar/recordCalendar.js:154 | A timestamp as one number, milliseconds counted from a fixed midnight: the serial day times the milliseconds of a day, plus the time of day. |
| CivilDates.NotAfter | force-app/main/default/lwc/recordCalendar/recordCalendar.js:154 | `a <= b` on `Date` values, defined as the comparison of their `Millis`; `AtOrAfterMidnight` and `AtOrBeforeMidnight` state what it means against a midnight. |
| CivilDates.AtOrAfterMidnight | force-app/main/default/lwc/recordCalendar/recordCalendar.js:120 | A timestamp is at or after a date's midnight exactly when its date is not earlier. |
| CivilDates.AtOrBeforeMidnight | force-app/main/default/lwc/recordCalendar/recordCalendar.js:120 | A timestamp is at or before a date's midnight exactly when its date is earlier, or it is that very midnight. |
| DayStyle.ClassList | force-app/main/default/lwc/recordCalendar/recordCalendar.js:194-206 | At most two class names. "adjacent-month" exactly outside the current month. "selected" exactly for a current-month cell with records. "today" exactly for today's cell in the current month, after "selected". No other name, and each pushed once: one name outside the current month, otherwise one for records plus one for today. |
| DayStyle.Join | force-app/main/default/lwc/recordCalendar/recordCalendar.js:208 | `join(" ")`: no names give `""`, and a joined string starts with the first name, followed by a space when more names follow; `SplitJoin` states that it can be split back. |
| DayStyle.DayCss | force-app/main/default/lwc/recordCalendar/recordCalendar.js:193-210 | The style of a cell is its class list joined; what it then says is stated by `DayCssClasses` and `AdjacentMonthCss`. |
| DayStyle.SplitJoin | force-app/main/default/lwc/recordCalendar/recordCalendar.js:208 | Joining class names with single spaces can be split back into the same names. |
| DayStyle.JoinEmpty | force-app/main/default/lwc/recordCalendar/recordCalendar.js:208 | The joined string is empty exactly when no class was pushed. |
| DayStyle.DayCssClasses | force-app/main/default/lwc/recordCalendar/recordCalendar.js:193-210 | The style is `""` exactly for a plain current-month cell (no records, not today), and otherwise lists the cell's classes. |
| DayStyle.AdjacentMonthCss | force-app/main/default/lwc/recordCalendar/recordCalendar.js:204-206 | The style is `"slds-day_adjacent-month"` exactly for cells outside the current month. |
| CalendarTypes.StartsOn | force-app/main/default/lwc/recordCalendar/recordCalendar.js:164-167 | The `isMatch` test: a record starts on `d` exactly when its start parses and its civil date (UTC year, month and day) is `d`; a start that does not parse matches no date. |
| CalendarTypes.HasEvent | force-app/main/default/lwc/recordCalendar/recordCalendar.js:33-36 | The `find(e => e.Id === eventId)` test: a cell holds `id` exactly when one of its records has that identifier. |
| CalendarGrid.EventsOn | force-app/main/default/lwc/recordCalendar/recordCalendar.js:160-169 | The records whose start date is `d`, each as often as in the input and nothing else; `EventsOnConcat` states that input order is kept. |
| CalendarGrid.EventsOnConcat | force-app/main/default/lwc/recordCalendar/recordCalendar.js:160-169 | Filtering a concatenation is concatenating the filtered parts, so the filter keeps input order. |
| CalendarGrid.EventsOnSingle | force-app/main/default/lwc/recordCalendar/recordCalendar.js:160-169 | A single record is kept exactly when it starts on `d`. |
| CalendarGrid.FirstOfMonth | force-app/main/default/lwc/recordCalendar/recordCalendar.js:134 | The 1st of the reference month (`new Date(year, month, 1)`), defined as that date for the reference year as given; see "## Left out" for years 0 to 99. |
| CalendarGrid.LastOfMonth | force-app/main/default/lwc/recordCalendar/recordCalendar.js:135 | The last of the reference month (`new Date(year, month + 1, 0)`), defined as the date whose day is `DaysInMonth` in the reference year as given; see "## Left out" for years 0 to 99. |
| CalendarGrid.LeadDays | force-app/main/default/lwc/recordCalendar/recordCalendar.js:142-143 | `diff`: 0 to 6, and 0 exactly when the 1st falls on `startOfWeek`. |
| CalendarGrid.TrailDays | force-app/main/default/lwc/recordCalendar/recordCalendar.js:148-149 | `endDiff`: 0 to 6, and 0 exactly when the last of the month falls on the day before `startOfWeek`. |
| CalendarGrid.GridStart | force-app/main/default/lwc/recordCalendar/recordCalendar.js:141-144 | The first date shown, defined as the 1st moved back `diff` days into the previous month or year; `GridStartSerial` and `GridStartIsShift` state that. |
| CalendarGrid.GridEnd | force-app/main/default/lwc/recordCalendar/recordCalendar.js:146-150 | The last date shown, defined as the last of the month moved on `endDiff` days into the next month or year; `GridEndSerial` and `GridEndIsShift` state that. |
| CalendarGrid.GridStartSerial | force-app/main/default/lwc/recordCalendar/recordCalendar.js:141-144 | The grid start lies `diff` days before the 1st, by serial number. |
| CalendarGrid.GridEndSerial | force-app/main/default/lwc/recordCalendar/recordCalendar.js:146-150 | The grid end lies `endDiff` days after the last of the month, by serial number. |
| CalendarGrid.MakeDay | force-app/main/default/lwc/recordCalendar/recordCalendar.js:155-177 | The cell of one date, defined field by field: the date, its day number, the records starting that date, the month flag, the today flag and the style computed from those; `GridCellFields` states it for every grid cell. |
| CalendarGrid.GridDates | force-app/main/default/lwc/recordCalendar/recordCalendar.js:152-188 | The dates shown are `GridLength` consecutive dates from the grid start. |
| CalendarGrid.Rows | force-app/main/default/lwc/recordCalendar/recordCalendar.js:179-185 | Grouping the dates gives weeks of seven cells numbered 1, 2, … in order. |
| CalendarGrid.Grid | force-app/main/default/lwc/recordCalendar/recordCalendar.js:130-190 | The grid of a month: every week has seven cells. |
| CalendarGrid.GridStartIsShift | force-app/main/default/lwc/recordCalendar/recordCalendar.js:141-144 | The grid start is the 1st of the month shifted back by `diff` days. |
| CalendarGrid.GridEndIsShift | force-app/main/default/lwc/recordCalendar/recordCalendar.js:146-150 | The grid end is the last of the month shifted on by `endDiff` days. |
| CalendarGrid.StartWeekday | force-app/main/default/lwc/recordCalendar/recordCalendar.js:141-144 | The grid start falls on `startOfWeek`. |
| CalendarGrid.EndWeekday | force-app/main/default/lwc/recordCalendar/recordCalendar.js:146-150 | The grid end falls on `(startOfWeek + 6) % 7`. |
| CalendarGrid.StartAlignment | force-app/main/default/lwc/recordCalendar/recordCalendar.js:141-144 | `diff` is 0 to 6. The start is `diff` days before the 1st and falls on `startOfWeek`. No later day up to the 1st falls on `startOfWeek`. |
| CalendarGrid.EndAlignment | force-app/main/default/lwc/recordCalendar/recordCalendar.js:146-150 | `endDiff` is 0 to 6. The end is `endDiff` days after the last of the month and falls on the day before `startOfWeek`. No earlier day from the last of the month does. |
| CalendarGrid.MonthWeekdays | force-app/main/default/lwc/recordCalendar/recordCalendar.js:134-135 | The last of the month falls `length - 1` days after the 1st, and its day of the week follows from that. |
| CalendarGrid.GridLengthFacts | force-app/main/default/lwc/recordCalendar/recordCalendar.js:141-154 | From start to end inclusive there are 28 to 42 days, a multiple of seven. |
| CalendarGrid.GridRows | force-app/main/default/lwc/recordCalendar/recordCalendar.js:152-190 | Four to six weeks, with no partial week left over, ending on the grid end. |
| CalendarGrid.BuildStep | force-app/main/default/lwc/recordCalendar/recordCalendar.js:179-185 | One loop step: the next date's cell extends the current week, and a completed week extends the weeks. |
| CalendarGrid.GridShape | force-app/main/default/lwc/recordCalendar/recordCalendar.js:152-190 | 4 to 6 weeks numbered 1, 2, … of seven cells. Cell `i` of week `w` shows the date `7w + i` days after the start. The first cell is the grid start and the last the grid end. |
| CalendarGrid.GridEnds | force-app/main/default/lwc/recordCalendar/recordCalendar.js:141-154 | The first cell shows the grid start and the last cell the grid end. |
| CalendarGrid.GridCellFields | force-app/main/default/lwc/recordCalendar/recordCalendar.js:155-177 | Each cell carries its date's day number, the records starting that date, the month flag, the today flag (against `refDate`) and the derived style. |
| CalendarGrid.GridCellIsCell | force-app/main/default/lwc/recordCalendar/recordCalendar.js:152-188 | Cell `i` of week `w` of the grid is cell number `7w + i` counted from the grid start, so `CurrentMonthCells` and `MonthCovered` apply to the weeks. |
| CalendarGrid.GridConsecutive | force-app/main/default/lwc/recordCalendar/recordCalendar.js:154-188 | Each cell shows the day after the previous one, also across a week boundary. |
| CalendarGrid.GridDatesDistinct | force-app/main/default/lwc/recordCalendar/recordCalendar.js:154-188 | No date is shown twice. |
| CalendarGrid.GridContainsDate | force-app/main/default/lwc/recordCalendar/recordCalendar.js:154 | A date has a cell exactly when it lies between the grid start and the grid end. |
| CalendarGrid.CurrentMonthCells | force-app/main/default/lwc/recordCalendar/recordCalendar.js:171 | A cell is "current month" exactly when it lies between the 1st and the last of the month, that is, exactly when its year and month are the reference ones. Such a cell shows day `k - diff + 1`. |
| CalendarGrid.MonthCovered | force-app/main/default/lwc/recordCalendar/recordCalendar.js:134-154 | Every day of the reference month has its current-month cell, at position `diff + day - 1`. |
| CalendarGrid.TodayCells | force-app/main/default/lwc/recordCalendar/recordCalendar.js:172-175 | A cell is "today" exactly when it shows `refDate`'s date. At most one cell is, and one is exactly when that date is shown. |
| CalendarGrid.EventPlacement | force-app/main/default/lwc/recordCalendar/recordCalendar.js:160-169 | A record is in a cell exactly when it starts on that cell's date. It is in some cell exactly when it starts inside the grid range, and then in only one. |
| GridLookup.FirstWeekFrom | force-app/main/default/lwc/recordCalendar/recordCalendar.js:117-122 | `find` over the weeks: the first week from `from` whose range holds `t`, or none when no week does. |
| GridLookup.WeekForDate | force-app/main/default/lwc/recordCalendar/recordCalendar.js:111-123 | The first week whose range holds the timestamp. None when none does, or when the date does not parse. |
| GridLookup.FirstDayFrom | force-app/main/default/lwc/recordCalendar/recordCalendar.js:49 | `find` over a week's cells by day of the month: the first match, or none. |
| GridLookup.InWeek | force-app/main/default/lwc/recordCalendar/recordCalendar.js:117-121 | The range check of `_getWeekForDate`, defined as: the week's first date at midnight is not after `t`, and `t` is not after the week's last date at midnight; `RowsInWeek` states what it means by day offset. |
| GridLookup.EventsForDate | force-app/main/default/lwc/recordCalendar/recordCalendar.js:46-55 | A non-empty result is the records of a cell with `t`'s day of the month, in a week whose range holds `t`. |
| GridLookup.PushTarget | force-app/main/default/lwc/recordCalendar/recordCalendar.js:96-100 | A record is pushed exactly when a week is found for its start, into its day-of-week position in that week. |
| GridLookup.RowsInWeek | force-app/main/default/lwc/recordCalendar/recordCalendar.js:118-121 | A week's range holds `t` exactly as `t`'s day offset says, with the last day counting only at midnight. |
| GridLookup.RowsWeekForDate | force-app/main/default/lwc/recordCalendar/recordCalendar.js:111-123 | The week found is `offset / 7` when the offset is in range and not the last day of a week past midnight, otherwise none. |
| GridLookup.RowDaysOfMonthDistinct | force-app/main/default/lwc/recordCalendar/recordCalendar.js:49 | The seven cells of a week show seven different days of the month. |
| GridLookup.RowsDayForDate | force-app/main/default/lwc/recordCalendar/recordCalendar.js:49 | The day-of-month search in a date's week finds that date's own cell. |
| GridLookup.RowsEventsForDate | force-app/main/default/lwc/recordCalendar/recordCalendar.js:46-55 | `getEventsForDate` gives the records starting on `t`'s date when `t`'s week is found, and `[]` otherwise. |
| GridLookup.RowsEventsAtCell | force-app/main/default/lwc/recordCalendar/recordCalendar.js:46-55 | Once the week is found, the records given are those of `t`'s own cell. |
| GridLookup.LastOfGridWeek | force-app/main/default/lwc/recordCalendar/recordCalendar.js:119 | A date is the last of its grid week exactly when it falls on the day before `startOfWeek`. |
| GridLookup.WeekdayInGridWeek | force-app/main/default/lwc/recordCalendar/recordCalendar.js:100 | The cell at position `i` of a week falls on day `startOfWeek + i`, which is `i` itself on a Sunday-first grid. |
| GridLookup.GridCellAt | force-app/main/default/lwc/recordCalendar/recordCalendar.js:152-188 | The cell at week `w`, position `i` shows the date `7w + i` days after the grid start. |
| GridLookup.WeekForDateOnGrid | force-app/main/default/lwc/recordCalendar/recordCalendar.js:111-123 | On the grid, a week is found exactly when `t`'s date is shown and `t` is not past midnight on the last day of a week. The week found holds `t`'s date. |
| GridLookup.EventsForDateOnGrid | force-app/main/default/lwc/recordCalendar/recordCalendar.js:46-55 | On the grid, `getEventsForDate` gives exactly the records starting on `t`'s date, in input order, when that week is found, and `[]` otherwise. |
| GridLookup.WeekForDateOnSundayGrid | force-app/main/default/lwc/recordCalendar/recordCalendar.js:111-123 | On a Sunday-first grid, a timestamp after midnight on a Saturday is in no week. |
| GridLookup.PushCellOnSundayGrid | force-app/main/default/lwc/recordCalendar/recordCalendar.js:100 | On a Sunday-first grid, position `getDay()` of the week found is the cell of the timestamp's date. |
| GridLookup.PushTargetOnSundayGrid | force-app/main/default/lwc/recordCalendar/recordCalendar.js:95-104 | On a Sunday-first grid, a record is pushed exactly when it starts inside the grid and not past midnight on a Saturday, and then into the cell of its own date. |
| Component.Landing | force-app/main/default/lwc/recordCalendar/recordCalendar.js:95-104 | The records, in input order, that the push loop sends to one cell, defined from each record's push target; `LandingMembers` and `LandingSnoc` state it. |
| Component.Pushed | force-app/main/default/lwc/recordCalendar/recordCalendar.js:100-103 | A cell after records are pushed into it: dates and flags kept, the records appended, and the style recomputed unless nothing was pushed, in which case the cell is unchanged. |
| Component.LandingMembers | force-app/main/default/lwc/recordCalendar/recordCalendar.js:95-104 | The records reaching a cell are exactly those whose push target it is. |
| Component.PushOne | force-app/main/default/lwc/recordCalendar/recordCalendar.js:100-103 | One push appends the record to the cell's records, changes no date or flag, and recomputes the cell's style from its new records. |
| Component.PushedSnoc | force-app/main/default/lwc/recordCalendar/recordCalendar.js:100-103 | Pushing records one by one is pushing them together. |
| Component.LandingSnoc | force-app/main/default/lwc/recordCalendar/recordCalendar.js:95-104 | One more record adds itself to exactly the cell it is pushed into. |
| Component.SetCell | force-app/main/default/lwc/recordCalendar/recordCalendar.js:100-103 | Replacing one cell changes that cell and nothing else. |
| Component.PushCell | force-app/main/default/lwc/recordCalendar/recordCalendar.js:95-104 | Across one push, a cell gains the record exactly when the record lands there. |
| Component.PushTargetSameDates | force-app/main/default/lwc/recordCalendar/recordCalendar.js:97 | Where a record is pushed depends only on the cells' dates, which pushes do not change. |
| Component.PushRecord | force-app/main/default/lwc/recordCalendar/recordCalendar.js:96-104 | One record's push keeps every date, week number and week length. |
| Component.PushAll | force-app/main/default/lwc/recordCalendar/recordCalendar.js:95-105 | The pushes of all records keep the shape of the grid. |
| Component.PushAllCells | force-app/main/default/lwc/recordCalendar/recordCalendar.js:95-105 | After all pushes, each cell is its original with the records landing there appended in order, its style recomputed, or untouched when none lands. |
| Component.PushRecordCells | force-app/main/default/lwc/recordCalendar/recordCalendar.js:95-105 | Pushing one more record appends it to the one cell it lands in. |
| Component.LandingOnSundayGrid | force-app/main/default/lwc/recordCalendar/recordCalendar.js:95-104 | On a Sunday-first grid, the records reaching a cell are those starting on its date, except those after midnight on a Saturday. |
| Component.CellHasEvent | force-app/main/default/lwc/recordCalendar/recordCalendar.js:33-35 | A grid cell holds identifier `id` exactly when a record with that identifier starts on its date. |
| Component.GridShows | force-app/main/default/lwc/recordCalendar/recordCalendar.js:152-190 | The grid shows consecutive dates from the grid start to the grid end, each cell with its date's records. |
| Component.ShownEvent | force-app/main/default/lwc/recordCalendar/recordCalendar.js:31-40 | Some cell holds identifier `id` exactly when a record with that identifier starts in the range shown. |
| Component.ShownFirstWithEvent | force-app/main/default/lwc/recordCalendar/recordCalendar.js:31-40 | The first cell holding identifier `id` shows the earliest start date, among the dates shown, of such records. |
| Component.GridHasEvent | force-app/main/default/lwc/recordCalendar/recordCalendar.js:31-37 | On the grid, a cell holds identifier `id` exactly when such a record starts on its date. |
| Component.GridShowsEvent | force-app/main/default/lwc/recordCalendar/recordCalendar.js:29-43 | On the grid, the search finds a cell exactly when a record with that identifier starts between the grid start and the grid end. |
| Component.FirstWithEventOnGrid | force-app/main/default/lwc/recordCalendar/recordCalendar.js:29-43 | The date `getDateForEvent` returns is the earliest start date, among dates shown, of the records with that identifier. |
| Component.NoRecordNoCell | force-app/main/default/lwc/recordCalendar/recordCalendar.js:42 | An identifier that no record has is found in no cell. |
| Component.FillWeeks | force-app/main/default/lwc/recordCalendar/recordCalendar.js:152-188 | The loop over `count` whole weeks of dates from `startDate` builds exactly those rows: seven cells per week, numbered weeks, each cell built for its date. |
| Component.BuildWeeks | force-app/main/default/lwc/recordCalendar/recordCalendar.js:130-190 | The first and the last date shown, then the loop, build exactly the grid of the month. |
| Component.RecordCalendar.constructor | force-app/main/default/lwc/recordCalendar/recordCalendar.js:14-19 | A new component has its reference date, no grid and no records. |
| Component.RecordCalendar.GenerateCalendar | force-app/main/default/lwc/recordCalendar/recordCalendar.js:130-191 | `weeks` becomes the month's grid with `refDate` as today. Nothing else changes. |
| Component.RecordCalendar.GetDateForEvent | force-app/main/default/lwc/recordCalendar/recordCalendar.js:29-43 | It returns the date of the first cell, week then day, holding the identifier, and none exactly when no cell holds it. |
| Component.RecordCalendar.PushRecords | force-app/main/default/lwc/recordCalendar/recordCalendar.js:95-105 | The push loop leaves `weeks` as every record pushed in input order. |
| Component.RecordCalendar.ProcessEventData | force-app/main/default/lwc/recordCalendar/recordCalendar.js:89-109 | Without records nothing changes. Otherwise the grid ends as the Sunday-first grid of `refDate`'s month built from `eventData`. |
| Component.RecordCalendar.WiredRelatedEvents | force-app/main/default/lwc/recordCalendar/recordCalendar.js:74-87 | Records received become `eventData` and the grid shown is rebuilt from them. A result without records changes nothing. |
| SeptemberScenario.SeptemberLayout | force-app/main/default/lwc/recordCalendar/__tests__/recordCalendar.test.js:71-78 | 1 September 2025 is a Monday. The Sunday-first grid has one leading and four trailing days, 35 cells in all, from 31 August. |
| SeptemberScenario.SeptemberDates | force-app/main/default/lwc/recordCalendar/__tests__/recordCalendar.test.js:65-69 | Five weeks, cell `7w + i` being that many days after 31 August. |
| SeptemberScenario.SeptemberCells | force-app/main/default/lwc/recordCalendar/__tests__/recordCalendar.test.js:65-100 | The scenario's grid has five full weeks with all cell fields as built. |
| SeptemberScenario.SeptemberDayNumbers | force-app/main/default/lwc/recordCalendar/__tests__/recordCalendar.test.js:72-84 | The first week shows 31 then 1, and the last week ends with 3 and 4. |
| SeptemberScenario.SeptemberEvents | force-app/main/default/lwc/recordCalendar/__tests__/recordCalendar.test.js:86-88 | One record on 1 September, one on 15 September, none elsewhere. Only the cell of 15 September is today. |
| SeptemberScenario.SeptemberClasses | force-app/main/default/lwc/recordCalendar/__tests__/recordCalendar.test.js:90-100 | "today" on 15 September alone; "selected" on 1 and 15 September alone. |
| SeptemberScenario.SeptemberMissing | force-app/main/default/lwc/recordCalendar/__tests__/recordCalendar.test.js:117-118 | No cell holds an identifier that neither record has. |
| SeptemberScenario.FoundEventOne | force-app/main/default/lwc/recordCalendar/__tests__/recordCalendar.test.js:135-143 | The search for "event-1" returns 1 September, a Monday. |
| SeptemberScenario.FifteenthInView | force-app/main/default/lwc/recordCalendar/__tests__/recordCalendar.test.js:160 | 15 September is shown and is not the last day of a Sunday week. |
| SeptemberScenario.FifteenthEvents | force-app/main/default/lwc/recordCalendar/__tests__/recordCalendar.test.js:160-162 | `getEventsForDate` at 15 September gives exactly the record "event-2". |
| SeptemberScenario.SeptemberOutcome | force-app/main/default/lwc/recordCalendar/__tests__/recordCalendar.test.js:65-162 | Every expectation of the four tests follows from the operations' contracts. |
| SeptemberScenario.SeptemberOf2025 | force-app/main/default/lwc/recordCalendar/__tests__/recordCalendar.test.js:44-162 | The scenario run through the component, with records arriving over the wire, gives every value the tests expect. |

## Left out

- LWC framework plumbing is not modelled: the `@api`, `@track` and `@wire` decorators, the `value` getter (a plain read of `weeks`), `render()`, `connectedCallback`, the `loading` flag, `wiredEventResult` and `refreshHandler`/`refreshApex`. They hold no calendar logic, and the last is an asynchronous platform call.
- The error branch of the record-wire handler only logs to the console. The model treats a result without records (`None`) as changing nothing.
- JavaScript `Date` semantics are collapsed to one civil-date convention: time zones, UTC versus local getters, and the representable range of `Date`. The source's mixed UTC and local reads agree only when the local zone is UTC.
- Parsing `StartDateTime` strings with `new Date(...)` is not modelled. A record carries its parsed start, and `None` stands for an invalid date, which matches no cell and no week.
- The current clock (the `new Date()` defaults of `refDate` and `targetDate`) becomes a parameter: the constructor's `refDate` and `GenerateCalendar`'s `targetDate`.
- `startOfWeek` is taken from 0 to 6, as the doc comment of `generateCalendar` says. The source does not check it, and other values are not modelled.
- The `label` field duplicates `day` and is modelled once, as `dayOfMonth`.
- Update in place and aliasing are modelled on values. The push step of `_processEventData` mutates shared day objects; the model computes the resulting grid as a new value (`Component.PushAll`). The push step appends into the previous grid's `day.events` arrays and rewrites their `css`, and the grid is then replaced (line 108), so its only lasting effect is on `weeks` and `day.events` references handed out earlier (a previous `value`, lines 24-26, or a `getEventsForDate` result, line 51), which the model does not capture.
- `getEventsForDate` and `_getWeekForDate` are not class members here. They read only `this.weeks`, so they are modelled as `GridLookup.EventsForDate` and `GridLookup.WeekForDate` applied to the `weeks` field.
- CalendarGrid.FirstOfMonth: does not model the two-digit-year rule of the `Date(year, month, day)` constructor, which reads a year from 0 to 99 as 1900 + year. For such a reference year the source builds `new Date(year, month, 1)` (line 134) in year 1900 + year, so its grid shows that later month, has no "today" cell (lines 172-175 compare full years) and shows no record of the reference year; the model keeps the year as given. `GridStart`, `GridEnd`, `Grid`, `BuildWeeks`, `GenerateCalendar` and `ProcessEventData` inherit the difference.
- CalendarGrid.LastOfMonth: does not model the same two-digit-year rule for `new Date(year, month + 1, 0)` (line 135); for a reference year from 0 to 99 the source's last day of the month lies in year 1900 + year.
- Component.RecordCalendar.GenerateCalendar: modelled for a valid timestamp `targetDate` and `refDate` only. An Invalid Date `targetDate` makes `year`, `month` and `diff` NaN, so the guard at line 154 is false at once and `weeks` becomes `[]`; this path is not modelled.
- Component.RecordCalendar.constructor: `refDate` is always a valid timestamp. A `refDate` that is not a `Date` (a string set through the public property) makes line 173 throw a `TypeError` from `this.refDate.getUTCFullYear()`, so `_processEventData` throws and line 83 is not reached; an Invalid Date `refDate`, which `_processEventData` passes to `generateCalendar` as its `targetDate` (line 108), leaves `weeks` as `[]` as above. Neither path is modelled.
- GridLookup.EventsForDate: modelled for a valid timestamp argument only. Two paths of `getEventsForDate` are not modelled: an Invalid Date, which the source answers with `[]` because every range comparison of lines 117-122 is false and line 54 is reached; and an argument that is not a `Date`, which throws a `TypeError` at line 49 once its parsed date has a week, because only the copy in `_getWeekForDate` (lines 112-114) is converted.
- GridLookup.EventsForDate: its own contract states only what a non-empty result is. The full characterisation is `GridLookup.EventsForDateOnGrid` on the grid and `GridLookup.RowsEventsForDate` on any rows of consecutive dates.
- Month navigation, and keeping a previous grid's records across a rebuild, do not exist in the code.
- The install scripts (`scripts/postinstall.js`, `scripts/preuninstall.js`) and `jest.config.js` are tooling outside the component.
