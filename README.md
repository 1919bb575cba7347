# Calendar widget model

A Dafny model of the month calendar widget in `calendarwidget/__init__.py`, a
Kivy component. The model covers:

- the date grid `DayTable.set_table` lays out: 42 cells starting on the Sunday
  on or before the 1st;
- the colours `DayTable.load_theme` and `DateCell.set_color` give each cell;
- the weekday header and its style;
- the month title and its month formats;
- the month cursor (`set_year`, `set_month`, `next_month`, `previous_month`, `reload`);
- the click and selection state machine of `CalendarWidget`
  (`datecell_released`, `select_cell`, `deselect_cell`), whose dispatched events
  are kept as an ordered log.

The model has two layers:

- **Step functions on values.** `Table.SetTableStep`, `Calendar.NextMonthStep`,
  `Calendar.CellReleasedStep` and the others take a view of the state and
  return `Outcome(newState, error)`. Python's exceptions become
  `Some(ValueError)`, `Some(IndexError)` and so on. The new state is the
  partly updated state Python leaves behind when it raises.
- **Classes that update fields in place.** `MonthTitle.TitleLabel`,
  `Header.DayHeader`, `Table.DayTable` and `Calendar.CalendarWidget` each prove
  that every method ends in exactly the state the matching step function
  gives. The lemmas are stated about the step functions.

Module by module:

- `Dates` implements Python's `datetime` arithmetic: the proleptic Gregorian
  ordinal and its inverse, `weekday()`, and the one-day step. The ordinal
  counts year and month lengths one by one and is proved equal to datetime's
  closed formula (`Dates.OrdinalFormula`).
- `Text` has `str(int)` and `str.replace`.
- `Colors` has the theme record and the two colour choices.
- `DateGrid` is the grid.
- `Table`, `Header` and `MonthTitle` are the three child widgets.
- `Calendar` is the widget itself.
- `CalendarProperties` holds the properties of navigation and selection.

Cells are records carrying a fresh identifier, so `instance != self.pressed` is
a comparison of identities. That reading rests on every step keeping the shown
cells' identifiers below the table's counter and increasing
(`Table.SetTableKeepsFreshIds`, `CalendarProperties.ReleaseKeepsFreshIds` and
the other `KeepsFreshIds` lemmas): a cell built by a later `set_table` never
equals one built before it. A cell's background and foreground live in maps of
the table. A cell that was never coloured reads the table's default background.

The model follows the code as written, including these behaviours its names
and docstrings do not suggest:

- Months are compared as raw numbers, both for colouring (line 218) and for
  navigation (lines 296 and 299). In a January grid the leading December cells
  therefore get next-month colours, and clicking one moves the calendar forward
  to February.
- `next_month` from December first calls `set_year(year + 1)` while the month
  is still December. It rebuilds December of the next year before moving to
  January. `previous_month` from January does the same with January of the
  previous year.
- `set_month` writes `month_now` before anything can fail. A month outside
  1..12 fails in the title with IndexError (a list format too short) or in
  `strptime` with ValueError; `set_month` has no range check of its own.
- A list month format is indexed with Python's rules. A longer list is
  accepted, and month 0 picks the last entry. The default format is
  `'${month}月'`, not the bare number.
- `strptime` with `%Y` accepts only the years 1000..9999.
- Laying out December 9999 steps past 9999-12-31 and raises OverflowError,
  after the cells up to that date have been added.
- With highlighting off, `deselect_cell` reads a saved background that was
  never assigned. That raises AttributeError and leaves the cell selected.
- `__init__` never calls `set_year`, so the year label keeps the layout's
  text "2021".

## Model

| member | source | states |
|---|---|---|
| Dates.DaysInMonth | calendarwidget/__init__.py:206 | a month has 28..31 days; 29 exactly for February of a leap year |
| Dates.NextDay | calendarwidget/__init__.py:206 | `date += timedelta(days=1)` yields a valid date |
| Dates.PrevDay | calendarwidget/__init__.py:198 | stepping a day back yields a valid date |
| Dates.FromOrdinal | calendarwidget/__init__.py:198 | `fromordinal` yields a valid date from year 1 on |
| Dates.DaysAfter | calendarwidget/__init__.py:202-206 | the running date after n steps is a valid date from year 1 on |
| Dates.Weekday | calendarwidget/__init__.py:196 | `weekday()` is in 0..6 |
| Dates.SundayFirstWeekday | calendarwidget/__init__.py:196 | `(weekday() + 1) % 7` is the ordinal modulo 7, in 0..6 |
| Dates.DaysBeforeMonth | calendarwidget/__init__.py:196 | the days before a month are non-negative and zero only for January |
| Dates.YearDays | calendarwidget/__init__.py:206 | a year has 365 or 366 days |
| Dates.YearStart | calendarwidget/__init__.py:196 | the days before a year from year 1 on are non-negative, at least 365 after year 1 |
| Dates.YearStartFormula | calendarwidget/__init__.py:196 | counting year by year agrees with datetime's closed formula `y*365 + y//4 - y//100 + y//400` |
| Dates.OrdinalFormula | calendarwidget/__init__.py:196 | the ordinal is datetime's `toordinal()` |
| Dates.YearStartMonotone | calendarwidget/__init__.py:206 | a year starts no earlier than the end of any year before it |
| Dates.DaysBeforeMonthMonotone | calendarwidget/__init__.py:206 | a later month starts at least the earlier month's length later |
| Dates.YearLength | calendarwidget/__init__.py:206 | a year adds 366 days to the ordinal when leap, else 365 |
| Dates.NextDayOrdinal | calendarwidget/__init__.py:206 | one day forward adds exactly 1 to the ordinal, across month and year ends |
| Dates.PrevDayInverse | calendarwidget/__init__.py:198 | one day back is undone by one day forward and subtracts 1 from the ordinal |
| Dates.OrdinalPositive | calendarwidget/__init__.py:198 | dates from year 1 on have ordinal at least 1, equal to 1 only for 0001-01-01 |
| Dates.FromOrdinalInverse | calendarwidget/__init__.py:198 | `toordinal(fromordinal(n)) == n` for every n >= 1 |
| Dates.OrdinalInverse | calendarwidget/__init__.py:198 | `fromordinal(toordinal(d)) == d` for every valid date from year 1 on |
| Dates.OrdinalInjective | calendarwidget/__init__.py:198 | two valid dates with the same ordinal are equal |
| Dates.LastDayOrdinal | calendarwidget/__init__.py:206 | 9999-12-31 is valid and has the largest ordinal, 3652059 |
| Dates.IsLastDate | calendarwidget/__init__.py:206 | a valid date is 9999-12-31 exactly when its ordinal is 3652059 |
| Dates.DaysAfterOrdinal | calendarwidget/__init__.py:202-206 | n steps of one day land on the date whose ordinal is n larger |
| Text.NatToString | calendarwidget/__init__.py:65 | `str(n)` of a natural is a non-empty string of digits |
| Text.IntToString | calendarwidget/__init__.py:65 | `str(n)` is non-empty and made of digits and '-' |
| Text.IntToStringRoundTrip | calendarwidget/__init__.py:65 | parsing `str(n)` gives n back |
| Text.IntToStringInjective | calendarwidget/__init__.py:65 | different integers have different `str` |
| Text.ReplaceAbsent | calendarwidget/__init__.py:71 | `replace` leaves a string without the pattern unchanged |
| Text.ReplaceLeading | calendarwidget/__init__.py:71 | a leading occurrence is replaced and the rest is processed after it |
| Text.ReplaceAllLeavesNone | calendarwidget/__init__.py:71 | when pattern and replacement share no character, no occurrence is left |
| MonthTitle.PyIndex | calendarwidget/__init__.py:74 | list indexing with negative indices; None exactly outside -len..len-1 |
| MonthTitle.FormattedMonth | calendarwidget/__init__.py:64-80 | getFormattedMonth: no format and str formats never fail; a list fails with IndexError exactly when month - 1 is outside Python's index range; any other type fails with TypeError; no other error |
| MonthTitle.NoFormatShowsNumber | calendarwidget/__init__.py:65-67 | without a stored format the label is `str(month)` and reads back as month |
| MonthTitle.TemplateLeavesNoPlaceholder | calendarwidget/__init__.py:70-71 | a str format never fails and leaves no `${month}` in the label |
| MonthTitle.DefaultFormatText | calendarwidget/__init__.py:269 | the default format `'${month}月'` shows the number followed by 月 |
| MonthTitle.NamesFailExactlyOutOfRange | calendarwidget/__init__.py:72-76 | a list format raises IndexError exactly when month - 1 is out of Python's index range, else shows that entry with the placeholder replaced |
| MonthTitle.NamesForCalendarMonths | calendarwidget/__init__.py:72-76 | for months 1..12 a list fails exactly when it is shorter than the month; longer lists are accepted; an entry without placeholder is shown verbatim |
| MonthTitle.MonthZeroPicksLastName | calendarwidget/__init__.py:74 | month 0 shows the last list entry instead of failing |
| MonthTitle.UnsupportedFormatFails | calendarwidget/__init__.py:77-78 | a format of any other type raises TypeError |
| MonthTitle.SetMonthKeepsFormatUnlessTruthy | calendarwidget/__init__.py:58-61 | set_month replaces the stored format only with a truthy one, keeps the year text, and fails exactly when formatting fails |
| MonthTitle.SetMonthStep | calendarwidget/__init__.py:58-61 | set_month stores a truthy format, keeps the year text and colours, succeeds exactly when the stored format formats the month and then shows that text; on failure the old text stays |
| MonthTitle.TitleLabel.constructor | calendarwidget/__init__.py:54-56 | a new title has no format and the layout's texts "3月" and "2021" |
| MonthTitle.TitleLabel.SetMonth | calendarwidget/__init__.py:58-61 | the label's new state and error are those of SetMonthStep |
| MonthTitle.TitleLabel.SetYear | calendarwidget/__init__.py:82-83 | the year label shows the given text; nothing else changes |
| MonthTitle.TitleLabel.LoadStyle | calendarwidget/__init__.py:85-87 | the month and year colours are set; nothing else changes |
| Header.HeaderNames | calendarwidget/__init__.py:103-104 | seven names, `day_name` with positions 0 and 6 exchanged and 1..5 kept |
| Header.HeaderMatchesColumnOnlyAtSunday | calendarwidget/__init__.py:103-104 | with distinct day names, a label names the weekday of its grid column only in column 0 |
| Header.EnglishHeader | calendarwidget/__init__.py:103-104 | in English the header reads Sunday, Tuesday, ..., Saturday, Monday |
| Header.HeaderNamesInvolution | calendarwidget/__init__.py:103-104 | exchanging twice gives `day_name` back |
| Header.HeaderStyle | calendarwidget/__init__.py:392-395 | seven entries on the header background: sunday colour at 0, weekday colour at 1..5, saturday colour at 6 |
| Header.ZipStyle | calendarwidget/__init__.py:114-117 | load_style's zip keeps the number of labels, gives label i style entry i for every i below both lengths, and leaves the labels beyond the style list unchanged |
| Header.HeaderMatchesCellForeground | calendarwidget/__init__.py:174-180 | each header column has the foreground set_color gives a current-month cell of that column |
| Header.ZipStyleIgnoresExtraEntries | calendarwidget/__init__.py:114-117 | entries beyond the labels are ignored; label i gets entry i |
| Header.HeaderStyleCoversAllLabels | calendarwidget/__init__.py:114-117 | the seven-entry style styles all seven labels |
| Header.DayHeader.constructor | calendarwidget/__init__.py:101-112 | the labels carry the exchanged day names and no style yet |
| Header.DayHeader.LoadStyle | calendarwidget/__init__.py:114-117 | the labels' styles are those of the positional zip |
| DateGrid.CellTextShowsDay | calendarwidget/__init__.py:171 | a label holds '/' exactly outside the requested month; inside it reads back as the day |
| DateGrid.CellText | calendarwidget/__init__.py:171 | the cell label, `str(date)` inside the month and `month/date` outside; `CellTextShowsDay` proves the '/' marks exactly the outside cells and the inside label reads back as the day |
| DateGrid.LeadingDays | calendarwidget/__init__.py:196 | the number of leading cells is in 0..6 |
| DateGrid.TopLeft | calendarwidget/__init__.py:198 | the top-left date is valid |
| DateGrid.Cells | calendarwidget/__init__.py:202-205 | n steps add n cells |
| DateGrid.CellsIndex | calendarwidget/__init__.py:202-205 | cell i is the one added in step i, from the running date after i days |
| DateGrid.Grid | calendarwidget/__init__.py:202 | the grid has rows * cols = 42 cells |
| DateGrid.CellsPrefix | calendarwidget/__init__.py:202-205 | the first k cells of a longer run are the cells of a run of k |
| DateGrid.CellIds | calendarwidget/__init__.py:202-205 | the cells carry consecutive fresh identifiers in order of addition |
| DateGrid.LastDateIndex | calendarwidget/__init__.py:206 | the first step that reaches 9999-12-31, if any, and no earlier step does |
| DateGrid.LastDateIndexAt | calendarwidget/__init__.py:206 | the loop reaches 9999-12-31 at step i exactly when i is that first step |
| DateGrid.CellsPlaced | calendarwidget/__init__.py:202-206 | set_table adds at most 42 cells before it stops |
| DateGrid.GridStartsOnSunday | calendarwidget/__init__.py:195-198 | the leading days are the 1st's ordinal mod 7, so the top-left date is a Sunday |
| DateGrid.GridStartPositive | calendarwidget/__init__.py:198 | for a year strptime accepts the top-left date has a positive ordinal |
| DateGrid.GridDates | calendarwidget/__init__.py:202-206 | position i holds the date i days after the top-left one; its Sunday-first weekday is i % 7; position i + 1 holds the next day |
| DateGrid.MonthLength | calendarwidget/__init__.py:202-206 | the 1st of the next month is as many days on as the month is long |
| DateGrid.MonthAfterBefore | calendarwidget/__init__.py:338-354 | the month after the month before, and the month before the month after, are the month itself |
| DateGrid.DayOfMonth | calendarwidget/__init__.py:203 | days of one month have consecutive ordinals from its 1st |
| DateGrid.GridDateIs | calendarwidget/__init__.py:198-206 | a valid date whose ordinal is the top-left one's plus i is the date at position i |
| DateGrid.LeadingCell | calendarwidget/__init__.py:198-203 | the leading cells hold the last days of the month before |
| DateGrid.MonthCell | calendarwidget/__init__.py:203 | the requested month's days follow in order from the leading-day position |
| DateGrid.TrailingCell | calendarwidget/__init__.py:203-206 | the trailing cells hold the first days of the month after |
| DateGrid.GridLayout | calendarwidget/__init__.py:194-206 | the grid is the month before's tail, the whole month, then the month after's head |
| DateGrid.CellsOfRequestedMonth | calendarwidget/__init__.py:203 | cell i has column i % 7; it is flagged current exactly when its month is the requested one, exactly on the month's run of positions; outside cells carry the month number before or after |
| DateGrid.FirstAndCentreCells | calendarwidget/__init__.py:214-215 | the cell at the leading-day position shows "1", and positions 20 and 21 are always of the requested month |
| DateGrid.March2024Starts | calendarwidget/__init__.py:194-196 | 2024-03-01 has ordinal 738946, so five leading days |
| DateGrid.March2024TopLeft | calendarwidget/__init__.py:198-203 | the top-left cell of March 2024 is February 25, outside the month, in column 0 |
| DateGrid.March2024 | calendarwidget/__init__.py:194-203 | March 2024 has five leading days; position 5 is the 1st, position 21 the 17th, position 0 February 25 |
| DateGrid.LastDateInGrid | calendarwidget/__init__.py:206 | a position holds 9999-12-31 exactly when its ordinal is the largest |
| DateGrid.OverflowOnlyInDecember9999 | calendarwidget/__init__.py:194-206 | among accepted months only December 9999 steps past the last date, after adding the cells up to 9999-12-31 |
| DateGrid.OverflowPlacesLastMonth | calendarwidget/__init__.py:202-206 | an overflowing grid stops after the leading days and the 31 days of December |
| Table.LoadThemeFailsOnlyWithoutCentre | calendarwidget/__init__.py:212-215 | load_theme stores the theme, keeps the cells, and raises IndexError exactly when there is no `children[21]` |
| Table.LoadThemeStep | calendarwidget/__init__.py:212-229 | load_theme keeps the cells and the id counter, stores the theme, and raises IndexError exactly when there are fewer than 22 cells |
| Table.LayOutStep | calendarwidget/__init__.py:193-206 | the lay-out keeps the theme and colours, places at most 42 cells with ids from the counter, raises ValueError exactly when strptime rejects, otherwise at most OverflowError, and places all 42 cells when it raises nothing |
| Table.LayOutFrom | calendarwidget/__init__.py:202-206 | the loop places at most 42 cells and advances the counter by the number placed; it raises only OverflowError and places all 42 when it does not |
| Table.LayOutFromIgnoresCells | calendarwidget/__init__.py:193 | the loop's result does not depend on the cells removed before it |
| Table.SetTableStep | calendarwidget/__init__.py:192-210 | set_table keeps the stored theme and never lowers the counter; it raises ValueError exactly when strptime rejects and otherwise at most OverflowError, never IndexError from the theme reload |
| Table.LoadThemeColoursEveryCell | calendarwidget/__init__.py:216-229 | every shown cell gets the background and foreground of its month compared with the centre cell's month |
| Table.SetTableRejects | calendarwidget/__init__.py:193-194 | a year or month strptime rejects clears the table and raises ValueError; a theme reload then raises IndexError |
| Table.SetTableShowsGrid | calendarwidget/__init__.py:192-210 | set_table succeeds exactly for accepted months other than December 9999; the table then shows the month's grid with fresh ids, recoloured when a theme is stored |
| Table.LayOutStepBuilt | calendarwidget/__init__.py:193-206 | for an accepted month the lay-out places CellsPlaced cells from the top-left date and raises OverflowError exactly when the month overflows |
| Table.SetTableOverflows | calendarwidget/__init__.py:202-206 | when set_table overflows, it raises OverflowError with the cells up to 9999-12-31 in place and no colour changed |
| Table.SetTableKeepsOtherCells | calendarwidget/__init__.py:193-210 | a cell from before set_table keeps its colours and is no longer shown |
| Table.SetTableKeepsFreshIds | calendarwidget/__init__.py:202-205 | after set_table the shown cells have increasing ids below the counter |
| Table.LoadThemeKeepsFreshIds | calendarwidget/__init__.py:212-229 | load_theme keeps that property |
| Table.GridColours | calendarwidget/__init__.py:174-180 | the colours of grid position i: now-days inside the month; previous or next by month NUMBER outside it, so December cells in a January grid are "next"; Sunday and Saturday columns keep their own foreground |
| Colors.MonthPalette | calendarwidget/__init__.py:216-229 | load_theme's choice of previous, now or next colours by comparing month numbers with the centre cell's; `Table.GridColours` and `Table.LoadThemeColoursEveryCell` prove which cells get which |
| Colors.DayColor | calendarwidget/__init__.py:174-180 | set_color's Sunday and Saturday override; `Header.HeaderMatchesCellForeground` and `Table.GridColours` prove the columns' foregrounds |
| Table.CentreMonth | calendarwidget/__init__.py:215 | `children[21].month`, the cell added 22nd from the end; `DateGrid.FirstAndCentreCells` proves it is the requested month in a full grid |
| Table.DayTable.constructor | calendarwidget/__init__.py:185-187 | a new table is empty, with no theme and no colours |
| Table.DayTable.SetBackground | calendarwidget/__init__.py:153-154 | the cell's background is the given colour; nothing else changes |
| Table.DayTable.SetTable | calendarwidget/__init__.py:192-210 | the table's new state and error are those of SetTableStep |
| Table.DayTable.LayOut | calendarwidget/__init__.py:193-206 | the table's new state and error are those of LayOutStep |
| Table.DayTable.AddCells | calendarwidget/__init__.py:202-206 | the loop's new state and error are those of LayOutFrom: one cell per step, stopping with OverflowError right after 9999-12-31 |
| Table.DayTable.LoadTheme | calendarwidget/__init__.py:212-229 | the table's new state and error are those of LoadThemeStep |
| Calendar.CalendarWidget.constructor | calendarwidget/__init__.py:269-289 | the new widget is in the state ConstructStep gives, with the exchanged header names |
| Calendar.CalendarWidget.SetYear | calendarwidget/__init__.py:356-359 | the new state and error are those of SetYearStep |
| Calendar.CalendarWidget.SetMonth | calendarwidget/__init__.py:361-371 | the new state and error are those of SetMonthStep |
| Calendar.CalendarWidget.NextMonth | calendarwidget/__init__.py:338-345 | the new state and error are those of NextMonthStep |
| Calendar.CalendarWidget.PreviousMonth | calendarwidget/__init__.py:347-354 | the new state and error are those of PreviousMonthStep |
| Calendar.CalendarWidget.Reload | calendarwidget/__init__.py:291-292 | the new state and error are those of ReloadStep |
| Calendar.CalendarWidget.Select | calendarwidget/__init__.py:311-317 | the new state and error are those of SelectStep |
| Calendar.CalendarWidget.Deselect | calendarwidget/__init__.py:319-324 | the new state and error are those of DeselectStep |
| Calendar.CalendarWidget.CellReleased | calendarwidget/__init__.py:294-309 | the new state and error are those of CellReleasedStep |
| Calendar.CalendarWidget.LoadTheme | calendarwidget/__init__.py:387-399 | the new state and error are those of LoadThemeStep |
| Calendar.SetYearStep | calendarwidget/__init__.py:356-359 | set_year writes the year, keeps the month, the event log, the selection and the settings, and raises at most what set_table raises (ValueError or OverflowError); SetYearShowsYear is its property |
| Calendar.SetMonthStep | calendarwidget/__init__.py:361-371 | set_month writes the month, keeps the year, the event log, the selection and the settings |
| Calendar.NextMonthStep | calendarwidget/__init__.py:338-345 | next_month keeps the event log, the selection and the settings; `NextMonthMovesForward` gives where it moves and when it fails |
| Calendar.PreviousMonthStep | calendarwidget/__init__.py:347-354 | previous_month likewise; `PreviousMonthMovesBack` gives where it moves |
| Calendar.ReloadStep | calendarwidget/__init__.py:291-292 | reload keeps the year, the log and the selection; None and 0 keep the month |
| Calendar.SelectStep | calendarwidget/__init__.py:311-317 | select_cell logs the select event and records the cell before anything can fail; it raises AttributeError exactly when highlighting is on and pressed_background was never set; the cells and the month stay |
| Calendar.DeselectStep | calendarwidget/__init__.py:319-324 | deselect_cell logs a deselect event exactly when a cell is selected; it raises AttributeError exactly when no background was saved, leaving the cell selected, and otherwise clears the selection; the cells stay |
| Calendar.ReleaseMove | calendarwidget/__init__.py:295-303 | the first half of datecell_released logs on_previous_month or on_next_month before moving when the cell's month number is smaller or larger, keeps the selection, and does nothing for a cell of the displayed month |
| Calendar.CellReleasedStep | calendarwidget/__init__.py:294-309 | a release only appends to the event log, keeps the settings, and when it raises nothing leaves the released cell or nothing selected |
| Calendar.LoadThemeStep | calendarwidget/__init__.py:387-399 | load_theme keeps the year, month, log, selection and cells, hands the theme to the table, and raises IndexError exactly when the table has fewer than 22 cells |
| Calendar.ConstructStep | calendarwidget/__init__.py:269-289 | __init__ shows the given year and month with the given settings, nothing selected, nothing saved and no event logged; `ConstructShowsToday` gives the rest |
| CalendarProperties.SetMonthShowsMonth | calendarwidget/__init__.py:361-371 | set_month writes the month, keeps the year, stores a truthy format; it succeeds exactly when the title formats the month and the month is buildable, and then shows the formatted month and its grid |
| CalendarProperties.SetYearShowsYear | calendarwidget/__init__.py:356-359 | set_year sets the year label to `str(year)`, succeeds exactly when the current month is buildable in the new year, and then shows that month's grid |
| CalendarProperties.YearThenMonthShowsMonth | calendarwidget/__init__.py:340-344 | across a year boundary the move succeeds exactly when the new month formats and both the old month in the new year and the new month are buildable; the month stays in 1..12 and, on success, the new month and its grid are shown |
| CalendarProperties.NextMonthMovesForward | calendarwidget/__init__.py:338-345 | next_month keeps the month in 1..12; it succeeds exactly when the next month formats and is buildable (from December also December of the next year), and then shows the next calendar month |
| CalendarProperties.PreviousMonthMovesBack | calendarwidget/__init__.py:347-354 | previous_month likewise moves to the previous calendar month |
| CalendarProperties.NextMonthWithinYear | calendarwidget/__init__.py:341-345 | before December next_month moves to month + 1 of the same year, failing exactly when that month does not format or is not buildable |
| CalendarProperties.NextMonthIntoNextYear | calendarwidget/__init__.py:341-345 | from December next_month moves to January of the next year, failing exactly when January does not format or either month of the new year is not buildable |
| CalendarProperties.PreviousMonthWithinYear | calendarwidget/__init__.py:350-354 | after January previous_month moves to month - 1 of the same year |
| CalendarProperties.PreviousMonthIntoPreviousYear | calendarwidget/__init__.py:350-354 | from January previous_month moves to December of the previous year, needing January and December of that year buildable |
| CalendarProperties.NextThenPrevious | calendarwidget/__init__.py:338-354 | next_month then previous_month, both succeeding, return to the same (year, month) |
| CalendarProperties.PreviousThenNext | calendarwidget/__init__.py:338-354 | previous_month then next_month, both succeeding, return to the same (year, month) |
| CalendarProperties.NextMonthFromDecember9998 | calendarwidget/__init__.py:340-341 | from December 9998 next_month raises OverflowError showing December 9999 cut off at 9999-12-31 |
| CalendarProperties.PreviousMonthFromJanuary1000 | calendarwidget/__init__.py:349-350 | from January 1000 previous_month raises ValueError with an empty table and the year label already "999" |
| CalendarProperties.ReloadShowsMonth | calendarwidget/__init__.py:291-292 | reload keeps the year; None and 0 mean the current month; the month's grid is shown when buildable |
| CalendarProperties.ReleaseSelects | calendarwidget/__init__.py:305-317 | releasing a current-month cell with nothing selected selects and highlights it, saving its background, and logs one select event |
| CalendarProperties.ReleaseAgainDeselects | calendarwidget/__init__.py:305-309 | with toggle-deselect, releasing the selected cell deselects it, restores its background and logs only a deselect event |
| CalendarProperties.ReleaseAgainReselects | calendarwidget/__init__.py:305-307 | without toggle-deselect, releasing the selected cell again deselects and reselects it, keeping it highlighted with the same saved background |
| CalendarProperties.HighlightMoves | calendarwidget/__init__.py:311-324 | selecting A then B logs select A, deselect A, select B; A gets its original background back and B is highlighted |
| CalendarProperties.NoHighlightSavesNothing | calendarwidget/__init__.py:314-316 | without highlighting no background is ever saved |
| CalendarProperties.NoHighlightSecondReleaseFails | calendarwidget/__init__.py:319-323 | without highlighting, a second release raises AttributeError after the deselect event and the old cell stays selected |
| CalendarProperties.SetYearKeepsSelection | calendarwidget/__init__.py:356-359 | set_year keeps the selection, saved colours and event log; cells made before keep their colour and, once it succeeds, are not shown |
| CalendarProperties.SetMonthKeepsSelection | calendarwidget/__init__.py:361-371 | set_month likewise |
| CalendarProperties.YearThenMonthKeepsSelection | calendarwidget/__init__.py:340-344 | the year-boundary pair likewise |
| CalendarProperties.NextMonthKeepsSelection | calendarwidget/__init__.py:338-345 | next_month likewise |
| CalendarProperties.PreviousMonthKeepsSelection | calendarwidget/__init__.py:347-354 | previous_month likewise |
| CalendarProperties.NextSameYearKeepsSelection | calendarwidget/__init__.py:341-345 | next_month before December likewise |
| CalendarProperties.NextYearKeepsSelection | calendarwidget/__init__.py:341-345 | next_month from December likewise |
| CalendarProperties.PreviousSameYearKeepsSelection | calendarwidget/__init__.py:350-354 | previous_month after January likewise |
| CalendarProperties.PreviousYearKeepsSelection | calendarwidget/__init__.py:350-354 | previous_month from January likewise |
| CalendarProperties.ReleaseLaterMonthMovesOn | calendarwidget/__init__.py:299-301 | releasing a later-month cell logs on_next_month first; on success the calendar is one month on and the selected cell is one no longer shown |
| CalendarProperties.ReleaseEarlierMonthMovesBack | calendarwidget/__init__.py:296-298 | releasing an earlier-month cell logs on_previous_month first and moves one month back |
| CalendarProperties.ReleaseOtherMonthLogsMoveFirst | calendarwidget/__init__.py:294-301 | a release of another month's cell logs the month move before anything else, whatever follows |
| CalendarProperties.YearBoundaryCellsGoTheWrongWay | calendarwidget/__init__.py:296-301 | in a January grid the leading December cells dispatch on_next_month; in a December grid the trailing January cells dispatch on_previous_month |
| CalendarProperties.LoadThemeStylesWidget | calendarwidget/__init__.py:387-399 | load_theme colours the widget, title and all header labels and hands the theme to the table; pressed_background is set exactly when the table has 22 cells, else IndexError |
| CalendarProperties.ConstructShowsToday | calendarwidget/__init__.py:269-289 | __init__ succeeds exactly when the month formats and is buildable; it then shows the formatted month, the year label "2021" and the month's grid, with nothing selected and no events; the widget background, the title colours and all seven header styles come from the theme, and every cell has the background and the foreground (Sunday and Saturday columns included) of its month |
| CalendarProperties.ReleaseLogsEvents | calendarwidget/__init__.py:294-324 | a release that raises nothing logs exactly [month move if another month] + [deselect if something was selected] + [select unless it toggled off], and leaves the released cell or nothing selected |
| CalendarProperties.ReleaseCurrentMonthStays | calendarwidget/__init__.py:294-303 | releasing a cell of the displayed month moves nowhere: year, month, title, cells and id counter stay, and only select and deselect events are logged |
| CalendarProperties.SetYearKeepsFreshIds | calendarwidget/__init__.py:356-359 | after set_year the shown cells have increasing ids below the counter |
| CalendarProperties.SetMonthKeepsFreshIds | calendarwidget/__init__.py:361-371 | set_month keeps that property |
| CalendarProperties.NextMonthKeepsFreshIds | calendarwidget/__init__.py:338-345 | next_month keeps it |
| CalendarProperties.NextYearKeepsFreshIds | calendarwidget/__init__.py:341-345 | next_month from December keeps it |
| CalendarProperties.PreviousMonthKeepsFreshIds | calendarwidget/__init__.py:347-354 | previous_month keeps it |
| CalendarProperties.PreviousYearKeepsFreshIds | calendarwidget/__init__.py:350-354 | previous_month from January keeps it |
| CalendarProperties.YearThenMonthKeepsFreshIds | calendarwidget/__init__.py:340-344 | set_year then set_month keep it |
| CalendarProperties.SelectionKeepsCells | calendarwidget/__init__.py:311-324 | select_cell and deselect_cell keep the cells and the id counter |
| CalendarProperties.ReleaseMoveKeepsFreshIds | calendarwidget/__init__.py:295-303 | the month move of a release keeps fresh ids |
| CalendarProperties.ReleaseKeepsMovedCells | calendarwidget/__init__.py:305-309 | after its month move a release keeps the cells and the counter |
| CalendarProperties.ReleaseKeepsFreshIds | calendarwidget/__init__.py:294-309 | a release keeps fresh ids, so a cell shown after a month move never equals the selected cell from before it |
| CalendarProperties.LoadThemeKeepsFreshIds | calendarwidget/__init__.py:387-399 | the widget's load_theme keeps fresh ids |

## Left out

- The Kivy layouts, sizing, `pos_hint` and the canvas background drawing (`set_background_color`, `_update_rect`). The model keeps only the colour the widget is given.
- The layout rule at `calendarwidget/__init__.py:233` targets `<KivyCalender>`, a class the package does not define; read literally, `CalendarWidget.__init__` would fail at `self.title_label` (line 281). The layout rule is assumed to apply to `CalendarWidget`, giving it the title, header and table the rest of its code uses.
- Kivy's event machinery: `bind`, `dispatch` and the empty `on_*` handlers. Dispatching is appending an event to the log. Listeners that call back into the widget are not modelled.
- `set_cell_callback` and `cell.bind(on_release=...)`: the table's cells always call `CalendarWidget.CellReleased`.
- The `cell_cls` customisation of `DayTable` and `set_table`: every cell is a `DateCell`.
- `DateCellBase.set_theme`: the theme each cell stores is not kept, since only `set_color` reads it and the model passes the theme directly.
- `datetime.now()` in `__init__`: today's year and month are constructor parameters.
- `calendar.day_name` is locale-dependent and is a constructor parameter of seven names.
- `calendarwidget/colors.py` is not part of this model: colours are records the model never inspects, only stores and compares, and the theme is a parameter, so `ColorTheme()`'s default colours are not modelled.
- The text of the IndexError and TypeError messages.
- `Calendar.CalendarWidget.constructor`: `__init__` raises when the month format or the month cannot be shown; the constructor requires that it does not, and `ConstructShowsToday` states when that is.
- `Header.DayHeader.LoadStyle`: the generic `setattr` loop is modelled only for the two keys the widget passes, `color` and `background_color`.
- The truth value of `self.pressed` in `deselect_cell` is taken as "a cell is selected": a cell widget is always truthy.
- sample/basic.py is a demo application and is not part of this model.
