/** What month navigation, cell release and theming do to the calendar widget. */
module CalendarProperties {
  import opened Failures
  import opened Text
  import opened Colors
  import opened DateGrid
  import opened Header
  import opened Calendar
  import MonthTitle
  import Table

  /** A month set_table can lay out without raising. */
  predicate Buildable(year: int, month: int) {
    StrptimeAccepts(year, month) && !(year == 9999 && month == 12)
  }

  /** The table shows the grid of (year, month), numbered from the last 42 identifiers handed out. */
  predicate ShowsGrid(t: Table.TableView, year: int, month: int) {
    1 <= month <= 12 && t.nextId >= CellCount && t.cells == Grid(year, month, t.nextId - CellCount)
  }

  /** The month format the title holds after set_month(month, format). */
  function StoredFormat(w: WidgetView, format: Option<MonthTitle.MonthFormat>): Option<MonthTitle.MonthFormat> {
    if MonthTitle.Truthy(format) then format else w.title.format
  }

  /**
   * set_month shows the requested month: when the title and the table accept
   * it, the label shows the formatted month and the table the month's grid.
   */
  lemma SetMonthShowsMonth(w: WidgetView, month: int, format: Option<MonthTitle.MonthFormat>)
    ensures var r, f := SetMonthStep(w, month, format), StoredFormat(w, format);
      && r.state.month == month && r.state.year == w.year && r.state.title.format == f
      && (r.error.None? <==> MonthTitle.FormattedMonth(f, month).Ok? && Buildable(w.year, month))
      && (r.error.None? ==>
          && r.state.title.monthText == MonthTitle.FormattedMonth(f, month).value
          && r.state.table.cells == Grid(w.year, month, w.table.nextId)
          && ShowsGrid(r.state.table, w.year, month))
  {
    Table.SetTableShowsGrid(w.table, w.year, month);
  }

  /**
   * The outcome r of moving the widget w to (year, month): it fails exactly
   * when the title cannot format the month or the table cannot lay it out
   * (nor, across a year boundary, the old month in the new year), and when it
   * succeeds the widget shows that month.
   */
  predicate MovedTo(w: WidgetView, r: Outcome<WidgetView>, year: int, month: int, acrossYear: bool) {
    && 1 <= r.state.month <= 12
    && (r.error.None? <==>
          MonthTitle.FormattedMonth(w.title.format, month).Ok? && Buildable(year, month)
          && (acrossYear ==> Buildable(year, w.month)))
    && (r.error.None? ==>
          && r.state.year == year && r.state.month == month
          && r.state.title.monthText == MonthTitle.FormattedMonth(w.title.format, month).value
          && ShowsGrid(r.state.table, year, month))
  }

  /**
   * set_year shows the requested year: the title's year label is its decimal
   * text, the step fails exactly when the table cannot lay out the current
   * month in that year, and otherwise the table shows that grid.
   */
  lemma SetYearShowsYear(w: WidgetView, year: int)
    requires 1 <= w.month <= 12
    ensures var r := SetYearStep(w, year);
      && r.state.title.yearText == IntToString(year)
      && (r.error.None? <==> Buildable(year, w.month))
      && (r.error.None? ==> ShowsGrid(r.state.table, year, w.month))
  {
    Table.SetTableShowsGrid(w.table, year, w.month);
  }

  /**
   * Across a year boundary: set_year lays out the old month in the new year,
   * then set_month the new month; both must be buildable.
   */
  lemma YearThenMonthShowsMonth(w: WidgetView, year: int, month: int)
    requires 1 <= w.month <= 12 && 1 <= month <= 12
    ensures MovedTo(w, YearThenMonth(w, year, month), year, month, true)
  {
    Table.SetTableShowsGrid(w.table, year, w.month);
    var s := SetYearStep(w, year);
    SetMonthShowsMonth(s.state, month, None);
  }

  /**
   * next_month moves to the following calendar month. From December it first
   * rebuilds the table for (year + 1, December), so that year must also be
   * buildable; it fails otherwise.
   */
  lemma NextMonthMovesForward(w: WidgetView)
    requires 1 <= w.month <= 12
    ensures var (y, m) := MonthAfter(w.year, w.month); MovedTo(w, NextMonthStep(w), y, m, w.month == 12)
  {
    if w.month == 12 {
      NextMonthIntoNextYear(w);
    } else {
      NextMonthWithinYear(w);
    }
  }

  /** Before December next_month is set_month(month + 1) in the same year. */
  lemma NextMonthWithinYear(w: WidgetView)
    requires 1 <= w.month < 12
    ensures MovedTo(w, NextMonthStep(w), w.year, w.month + 1, false)
  {
    SetMonthShowsMonth(w, w.month + 1, None);
    assert NextMonthStep(w) == SetMonthStep(w, w.month + 1, None);
  }

  /** From December next_month goes through set_year(year + 1) to January. */
  lemma NextMonthIntoNextYear(w: WidgetView)
    requires w.month + 1 >= 13 && w.month <= 12
    ensures MovedTo(w, NextMonthStep(w), w.year + 1, (w.month + 1) % 12, true)
  {
    YearThenMonthShowsMonth(w, w.year + 1, (w.month + 1) % 12);
    assert NextMonthStep(w) == YearThenMonth(w, w.year + 1, (w.month + 1) % 12);
  }

  /**
   * previous_month moves to the preceding calendar month. From January it
   * first rebuilds the table for (year - 1, January).
   */
  lemma PreviousMonthMovesBack(w: WidgetView)
    requires 1 <= w.month <= 12
    ensures var (y, m) := MonthBefore(w.year, w.month); MovedTo(w, PreviousMonthStep(w), y, m, w.month == 1)
  {
    if w.month == 1 {
      PreviousMonthIntoPreviousYear(w);
    } else {
      PreviousMonthWithinYear(w);
    }
  }

  /** After January previous_month is set_month(month - 1) in the same year. */
  lemma PreviousMonthWithinYear(w: WidgetView)
    requires 1 < w.month <= 12
    ensures MovedTo(w, PreviousMonthStep(w), w.year, w.month - 1, false)
  {
    SetMonthShowsMonth(w, w.month - 1, None);
    assert PreviousMonthStep(w) == SetMonthStep(w, w.month - 1, None);
  }

  /** From January previous_month goes through set_year(year - 1) to December. */
  lemma PreviousMonthIntoPreviousYear(w: WidgetView)
    requires w.month - 1 <= 0 && 1 <= w.month
    ensures MovedTo(w, PreviousMonthStep(w), w.year - 1, w.month - 1 + 12, true)
  {
    YearThenMonthShowsMonth(w, w.year - 1, w.month - 1 + 12);
    assert PreviousMonthStep(w) == YearThenMonth(w, w.year - 1, w.month - 1 + 12);
  }

  /** Going forward a month and back again returns to the same month. */
  lemma NextThenPrevious(w: WidgetView)
    requires 1 <= w.month <= 12
    requires NextMonthStep(w).error.None?
    requires PreviousMonthStep(NextMonthStep(w).state).error.None?
    ensures var r := PreviousMonthStep(NextMonthStep(w).state).state;
      r.year == w.year && r.month == w.month
  {
    NextMonthMovesForward(w);
    PreviousMonthMovesBack(NextMonthStep(w).state);
    MonthAfterBefore(w.year, w.month);
  }

  /** Going back a month and forward again returns to the same month. */
  lemma PreviousThenNext(w: WidgetView)
    requires 1 <= w.month <= 12
    requires PreviousMonthStep(w).error.None?
    requires NextMonthStep(PreviousMonthStep(w).state).error.None?
    ensures var r := NextMonthStep(PreviousMonthStep(w).state).state;
      r.year == w.year && r.month == w.month
  {
    PreviousMonthMovesBack(w);
    NextMonthMovesForward(PreviousMonthStep(w).state);
    MonthAfterBefore(w.year, w.month);
  }

  /**
   * From December 9998 next_month fails: set_year first lays out December
   * 9999, whose grid overflows, so the widget is left showing year 9999 with
   * the month still December and the grid cut off after 9999-12-31.
   */
  lemma NextMonthFromDecember9998(w: WidgetView)
    requires w.year == 9998 && w.month == 12
    ensures var r := NextMonthStep(w);
      && r.error == Some(OverflowError)
      && r.state.year == 9999 && r.state.month == 12
      && r.state.table.cells == Grid(9999, 12, w.table.nextId)[..31 + LeadingDays(9999, 12)]
  {
    OverflowOnlyInDecember9999(w.year + 1, w.month);
    Table.SetTableOverflows(w.table, w.year + 1, w.month);
  }

  /**
   * From January 1000 previous_month fails: strptime rejects year 999, the
   * table is left empty and the year label already shows 999.
   */
  lemma PreviousMonthFromJanuary1000(w: WidgetView)
    requires w.year == 1000 && w.month == 1
    ensures var r := PreviousMonthStep(w);
      && r.error == Some(ValueError)
      && r.state.year == 999 && r.state.month == 1
      && r.state.title.yearText == IntToString(999)
      && r.state.table.cells == []
  {
  }

  /** reload with no month, or month 0, rebuilds the current month; any other month is shown instead. */
  lemma ReloadShowsMonth(w: WidgetView, month: Option<int>)
    ensures var r, m := ReloadStep(w, month), if month.None? || month.value == 0 then w.month else month.value;
      && r.state.year == w.year && r.state.month == m
      && (r.error.None? <==> MonthTitle.FormattedMonth(w.title.format, m).Ok? && Buildable(w.year, m))
      && (r.error.None? ==> r.state.table.cells == Grid(w.year, m, w.table.nextId))
  {
    var m := if month.None? || month.value == 0 then w.month else month.value;
    SetMonthShowsMonth(w, m, None);
  }

  /**
   * Releasing a cell of the displayed month with nothing selected selects and
   * highlights it, saving the background it had.
   */
  lemma ReleaseSelects(w: WidgetView, cell: Cell)
    requires cell.month == w.month && w.pressed.None?
    requires w.config.highlightPressedDay && w.pressedBackground.Some?
    ensures var r := CellReleasedStep(w, cell);
      && r.error.None?
      && r.state.pressed == Some(cell)
      && r.state.events == w.events + [DaySelect(cell)]
      && r.state.savedBackground == Some(Table.BackgroundOf(w.table, cell))
      && Table.BackgroundOf(r.state.table, cell) == w.pressedBackground.value
      && r.state.table.cells == w.table.cells
      && r.state.year == w.year && r.state.month == w.month
  {
  }

  /**
   * With double presses deselecting, releasing the selected cell again
   * deselects it and gives it back its saved background.
   */
  lemma ReleaseAgainDeselects(w: WidgetView, cell: Cell)
    requires cell.month == w.month && w.pressed == Some(cell)
    requires w.config.deselectDoublePressedDay && w.savedBackground.Some?
    ensures var r := CellReleasedStep(w, cell);
      && r.error.None?
      && r.state.pressed.None?
      && r.state.events == w.events + [DayDeselect(cell)]
      && Table.BackgroundOf(r.state.table, cell) == w.savedBackground.value
  {
  }

  /** Otherwise releasing the selected cell again deselects and reselects it. */
  lemma ReleaseAgainReselects(w: WidgetView, cell: Cell)
    requires cell.month == w.month && w.pressed == Some(cell)
    requires !w.config.deselectDoublePressedDay && w.savedBackground.Some?
    requires w.config.highlightPressedDay && w.pressedBackground.Some?
    ensures var r := CellReleasedStep(w, cell);
      && r.error.None?
      && r.state.pressed == Some(cell)
      && r.state.events == w.events + [DayDeselect(cell), DaySelect(cell)]
      && r.state.savedBackground == w.savedBackground
      && Table.BackgroundOf(r.state.table, cell) == w.pressedBackground.value
  {
  }

  /**
   * Selecting one day and then another moves the highlight: the first day gets
   * its original background back and the second is highlighted.
   */
  lemma HighlightMoves(w: WidgetView, a: Cell, b: Cell)
    requires a.month == w.month && b.month == w.month && a != b && w.pressed.None?
    requires w.config.highlightPressedDay && w.pressedBackground.Some?
    ensures var r := CellReleasedStep(CellReleasedStep(w, a).state, b);
      && r.error.None?
      && r.state.pressed == Some(b)
      && r.state.events == w.events + [DaySelect(a), DayDeselect(a), DaySelect(b)]
      && Table.BackgroundOf(r.state.table, a) == Table.BackgroundOf(w.table, a)
      && Table.BackgroundOf(r.state.table, b) == w.pressedBackground.value
  {
    ReleaseSelects(w, a);
  }

  /** Without highlighting no background is ever saved. */
  lemma NoHighlightSavesNothing(w: WidgetView, cell: Cell)
    requires !w.config.highlightPressedDay
    ensures CellReleasedStep(w, cell).state.savedBackground == w.savedBackground
  {
    NextMonthKeepsSelection(w.(events := w.events + [NextMonthEvent(cell, w.month, cell.month)]), cell);
    PreviousMonthKeepsSelection(w.(events := w.events + [PreviousMonthEvent(cell, w.month, cell.month)]), cell);
  }

  /**
   * So, without highlighting, releasing a cell of the displayed month while a
   * cell is selected raises AttributeError after dispatching the deselection,
   * and the old cell stays selected.
   */
  lemma NoHighlightSecondReleaseFails(w: WidgetView, cell: Cell)
    requires !w.config.highlightPressedDay && w.savedBackground.None?
    requires w.pressed.Some? && cell.month == w.month
    ensures var r := CellReleasedStep(w, cell);
      && r.error == Some(AttributeError)
      && r.state.pressed == w.pressed
      && r.state.events == w.events + [DayDeselect(w.pressed.value)]
  {
  }

  /** Moving between months leaves the selection, the saved colours and the event log alone. */
  predicate KeepsSelection(v: WidgetView, r: WidgetView) {
    && r.events == v.events && r.pressed == v.pressed && r.config == v.config
    && r.savedBackground == v.savedBackground && r.pressedBackground == v.pressedBackground
    && r.table.nextId >= v.table.nextId
  }

  /** What a month move does to a cell made before it: its colour is kept, and it is no longer shown. */
  predicate LeavesBehind(v: WidgetView, r: Outcome<WidgetView>, cell: Cell) {
    cell.id < v.table.nextId ==>
      && Table.BackgroundOf(r.state.table, cell) == Table.BackgroundOf(v.table, cell)
      && (r.error.None? ==> cell !in r.state.table.cells)
  }

  /** set_year keeps the selection and event log; once it succeeds, the cells shown are all new. */
  lemma SetYearKeepsSelection(v: WidgetView, year: int, cell: Cell)
    ensures KeepsSelection(v, SetYearStep(v, year).state)
    ensures LeavesBehind(v, SetYearStep(v, year), cell)
  {
    if cell.id < v.table.nextId {
      Table.SetTableKeepsOtherCells(v.table, year, v.month, cell);
    }
  }

  /** set_month likewise. */
  lemma SetMonthKeepsSelection(v: WidgetView, month: int, cell: Cell)
    ensures KeepsSelection(v, SetMonthStep(v, month, None).state)
    ensures LeavesBehind(v, SetMonthStep(v, month, None), cell)
  {
    if cell.id < v.table.nextId {
      Table.SetTableKeepsOtherCells(v.table, v.year, month, cell);
    }
  }

  /** Both halves keep the selection and leave the earlier cells behind, so the pair does. */
  lemma YearThenMonthKeepsSelection(v: WidgetView, year: int, month: int, cell: Cell)
    ensures KeepsSelection(v, YearThenMonth(v, year, month).state)
    ensures LeavesBehind(v, YearThenMonth(v, year, month), cell)
  {
    var s := SetYearStep(v, year);
    SetYearKeepsSelection(v, year, cell);
    if s.error.None? {
      SetMonthKeepsSelection(s.state, month, cell);
    }
  }

  /**
   * next_month keeps the selection, the saved background and the event log;
   * the cells made before it keep their colour, and after it succeeds none is shown.
   */
  lemma NextMonthKeepsSelection(v: WidgetView, cell: Cell)
    ensures KeepsSelection(v, NextMonthStep(v).state)
    ensures LeavesBehind(v, NextMonthStep(v), cell)
  {
    if v.month + 1 >= 13 {
      NextYearKeepsSelection(v, cell);
    } else {
      NextSameYearKeepsSelection(v, cell);
    }
  }

  /** next_month before December: set_month(month + 1). */
  lemma NextSameYearKeepsSelection(v: WidgetView, cell: Cell)
    requires v.month + 1 < 13
    ensures KeepsSelection(v, NextMonthStep(v).state)
    ensures LeavesBehind(v, NextMonthStep(v), cell)
  {
    SetMonthKeepsSelection(v, v.month + 1, cell);
    assert NextMonthStep(v) == SetMonthStep(v, v.month + 1, None);
  }

  /** next_month from December (or later): set_year, then set_month. */
  lemma NextYearKeepsSelection(v: WidgetView, cell: Cell)
    requires v.month + 1 >= 13
    ensures KeepsSelection(v, NextMonthStep(v).state)
    ensures LeavesBehind(v, NextMonthStep(v), cell)
  {
    YearThenMonthKeepsSelection(v, v.year + 1, (v.month + 1) % 12, cell);
    assert NextMonthStep(v) == YearThenMonth(v, v.year + 1, (v.month + 1) % 12);
  }

  /** previous_month likewise. */
  lemma PreviousMonthKeepsSelection(v: WidgetView, cell: Cell)
    ensures KeepsSelection(v, PreviousMonthStep(v).state)
    ensures LeavesBehind(v, PreviousMonthStep(v), cell)
  {
    if v.month - 1 <= 0 {
      PreviousYearKeepsSelection(v, cell);
    } else {
      PreviousSameYearKeepsSelection(v, cell);
    }
  }

  /** previous_month after January: set_month(month - 1). */
  lemma PreviousSameYearKeepsSelection(v: WidgetView, cell: Cell)
    requires v.month - 1 > 0
    ensures KeepsSelection(v, PreviousMonthStep(v).state)
    ensures LeavesBehind(v, PreviousMonthStep(v), cell)
  {
    SetMonthKeepsSelection(v, v.month - 1, cell);
    assert PreviousMonthStep(v) == SetMonthStep(v, v.month - 1, None);
  }

  /** previous_month from January (or earlier): set_year, then set_month. */
  lemma PreviousYearKeepsSelection(v: WidgetView, cell: Cell)
    requires v.month - 1 <= 0
    ensures KeepsSelection(v, PreviousMonthStep(v).state)
    ensures LeavesBehind(v, PreviousMonthStep(v), cell)
  {
    YearThenMonthKeepsSelection(v, v.year - 1, v.month - 1 + 12, cell);
    assert PreviousMonthStep(v) == YearThenMonth(v, v.year - 1, v.month - 1 + 12);
  }

  /**
   * Releasing a cell of a later month dispatches on_next_month first and moves
   * one month on; the cell then selected is no longer in the rebuilt table.
   */
  lemma ReleaseLaterMonthMovesOn(w: WidgetView, cell: Cell)
    requires 1 <= w.month <= 12 && cell.month > w.month && cell.id < w.table.nextId
    requires w.pressed != Some(cell)
    ensures var r := CellReleasedStep(w, cell);
      && w.events + [NextMonthEvent(cell, w.month, cell.month)] <= r.state.events
      && (r.error.None? ==>
            && (r.state.year, r.state.month) == MonthAfter(w.year, w.month)
            && r.state.pressed == Some(cell)
            && cell !in r.state.table.cells)
  {
    var v := w.(events := w.events + [NextMonthEvent(cell, w.month, cell.month)]);
    NextMonthMovesForward(v);
    NextMonthKeepsSelection(v, cell);
  }

  /**
   * Releasing a cell of an earlier month dispatches on_previous_month first and
   * moves one month back; the cell then selected is no longer in the rebuilt table.
   */
  lemma ReleaseEarlierMonthMovesBack(w: WidgetView, cell: Cell)
    requires 1 <= w.month <= 12 && cell.month < w.month && cell.id < w.table.nextId
    requires w.pressed != Some(cell)
    ensures var r := CellReleasedStep(w, cell);
      && w.events + [PreviousMonthEvent(cell, w.month, cell.month)] <= r.state.events
      && (r.error.None? ==>
            && (r.state.year, r.state.month) == MonthBefore(w.year, w.month)
            && r.state.pressed == Some(cell)
            && cell !in r.state.table.cells)
  {
    var v := w.(events := w.events + [PreviousMonthEvent(cell, w.month, cell.month)]);
    PreviousMonthMovesBack(v);
    PreviousMonthKeepsSelection(v, cell);
  }

  /** The event a release dispatches before anything else when the cell is of another month. */
  function MoveEvent(w: WidgetView, cell: Cell): Event {
    if cell.month < w.month then PreviousMonthEvent(cell, w.month, cell.month)
    else NextMonthEvent(cell, w.month, cell.month)
  }

  /**
   * Releasing a cell of another month logs the month move first, whatever
   * follows: the move keeps the log, and selecting and deselecting only append.
   */
  lemma ReleaseOtherMonthLogsMoveFirst(w: WidgetView, cell: Cell)
    requires cell.month != w.month
    ensures w.events + [MoveEvent(w, cell)] <= CellReleasedStep(w, cell).state.events
  {
    var v := w.(events := w.events + [MoveEvent(w, cell)]);
    if cell.month < w.month {
      PreviousMonthKeepsSelection(v, cell);
    } else {
      NextMonthKeepsSelection(v, cell);
    }
  }

  /**
   * Months are compared as numbers: in a January grid the leading December
   * days send the calendar FORWARD, and in a December grid the trailing
   * January days send it BACK.
   */
  lemma YearBoundaryCellsGoTheWrongWay(w: WidgetView, firstId: CellId, i: int)
    requires StrptimeAccepts(w.year, w.month) && 0 <= i < CellCount
    ensures var cell := Grid(w.year, w.month, firstId)[i];
      && (w.month == 1 && i < LeadingDays(w.year, 1) ==>
            w.events + [NextMonthEvent(cell, 1, 12)] <= CellReleasedStep(w, cell).state.events)
      && (w.month == 12 && i >= LeadingDays(w.year, 12) + 31 ==>
            w.events + [PreviousMonthEvent(cell, 12, 1)] <= CellReleasedStep(w, cell).state.events)
  {
    var cell := Grid(w.year, w.month, firstId)[i];
    CellsOfRequestedMonth(w.year, w.month, firstId, i);
    if cell.month != w.month {
      ReleaseOtherMonthLogsMoveFirst(w, cell);
    }
  }

  /**
   * load_theme colours the widget, the title and every header label, and
   * hands the theme to the table; pressed_background is set only when the
   * table, holding at least 22 cells, does not raise IndexError.
   */
  lemma LoadThemeStylesWidget(w: WidgetView, theme: Theme)
    ensures var r := LoadThemeStep(w, theme);
      && r.state.background == Some(theme.backgroundColor)
      && r.state.title.monthColor == Some(theme.monthColor)
      && r.state.title.yearColor == Some(theme.yearColor)
      && |r.state.headerStyles| == |w.headerStyles|
      && (forall i :: 0 <= i < |w.headerStyles| && i < 7 ==> r.state.headerStyles[i] == Some(HeaderStyle(theme)[i]))
      && r.state.table.theme == Some(theme) && r.state.table.cells == w.table.cells
      && (r.error.None? <==> |w.table.cells| >= 22)
      && (r.error.Some? ==> r.error == Some(IndexError) && r.state.pressedBackground == w.pressedBackground)
      && (r.error.None? ==> r.state.pressedBackground == Some(theme.pressedBackground))
  {
    Table.LoadThemeFailsOnlyWithoutCentre(w.table, theme);
  }

  /**
   * __init__ shows today's month in the given format, fully themed, with
   * nothing selected and no event dispatched. The year label is never set, so
   * it keeps the layout's text "2021". It raises exactly when the format
   * cannot be applied or set_table cannot lay out the month.
   */
  lemma ConstructShowsToday(year: int, month: int, theme: Theme, config: Config,
                            format: MonthTitle.MonthFormat, defaultBackground: Color)
    ensures var r, f := ConstructStep(year, month, theme, config, format, defaultBackground),
                        if MonthTitle.Truthy(Some(format)) then Some(format) else None;
      && (r.error.None? <==> MonthTitle.FormattedMonth(f, month).Ok? && Buildable(year, month))
      && (r.error.None? ==>
          && r.state.year == year && r.state.month == month
          && r.state.title.monthText == MonthTitle.FormattedMonth(f, month).value
          && r.state.title.yearText == "2021"
          && r.state.table.cells == Grid(year, month, 0)
          && r.state.pressed.None? && r.state.events == []
          && r.state.pressedBackground == Some(theme.pressedBackground)
          && r.state.background == Some(theme.backgroundColor)
          && r.state.title.monthColor == Some(theme.monthColor)
          && r.state.title.yearColor == Some(theme.yearColor)
          && r.state.headerStyles == seq(7, i requires 0 <= i < 7 => Some(HeaderStyle(theme)[i]))
          && (forall c :: c in r.state.table.cells ==>
                && Table.BackgroundOf(r.state.table, c) == Table.ThemedBackground(c, month, theme)
                && c in r.state.table.foreground
                && r.state.table.foreground[c] == Table.ThemedForeground(c, month, theme)))
  {
    var blank := Blank(year, month, config, defaultBackground);
    var s := SetMonthStep(blank, month, Some(format));
    SetMonthShowsMonth(blank, month, Some(format));
    if s.error.None? {
      FirstAndCentreCells(year, month, 0);
      assert Table.CentreMonth(s.state.table.cells) == month;
      LoadThemeStylesWidget(s.state, theme);
      HeaderStyleCoversAllLabels(s.state.headerStyles, theme);
      forall c | c in s.state.table.cells
        ensures var t := LoadThemeStep(s.state, theme).state.table;
          && Table.BackgroundOf(t, c) == Table.ThemedBackground(c, month, theme)
          && c in t.foreground && t.foreground[c] == Table.ThemedForeground(c, month, theme)
      {
        Table.LoadThemeColoursEveryCell(s.state.table, theme, c);
      }
    }
  }

  /**
   * The events one release dispatches, in order: the month move when the cell
   * is of another month, the deselection of the selected cell if there is one,
   * then the selection of the released cell unless it was the selected cell
   * and double presses deselect.
   */
  function ReleaseEvents(w: WidgetView, cell: Cell): seq<Event> {
    (if cell.month != w.month then [MoveEvent(w, cell)] else [])
    + (if w.pressed.Some? then [DayDeselect(w.pressed.value)] else [])
    + (if w.config.deselectDoublePressedDay && w.pressed == Some(cell) then [] else [DaySelect(cell)])
  }

  /**
   * A release that raises nothing appends exactly ReleaseEvents to the log and
   * leaves the released cell selected, or nothing selected when it toggled the
   * selected cell off; at most one cell is ever selected.
   */
  lemma ReleaseLogsEvents(w: WidgetView, cell: Cell)
    ensures var r := CellReleasedStep(w, cell);
      r.error.None? ==>
        && r.state.events == w.events + ReleaseEvents(w, cell)
        && r.state.pressed ==
             if w.config.deselectDoublePressedDay && w.pressed == Some(cell) then None else Some(cell)
  {
    var moved := w.events + (if cell.month != w.month then [MoveEvent(w, cell)] else []);
    var v := w.(events := moved);
    if cell.month < w.month {
      PreviousMonthKeepsSelection(v, cell);
    } else if cell.month > w.month {
      NextMonthKeepsSelection(v, cell);
    }
  }

  /**
   * Releasing a cell of the displayed month moves nowhere: neither
   * previous_month nor next_month runs, so the year, the month, the title and
   * the cells shown stay as they were, and no month-move event is logged.
   */
  lemma ReleaseCurrentMonthStays(w: WidgetView, cell: Cell)
    requires cell.month == w.month
    ensures var r := CellReleasedStep(w, cell).state;
      && r.year == w.year && r.month == w.month && r.title == w.title
      && r.table.cells == w.table.cells && r.table.nextId == w.table.nextId
      && w.events <= r.events
      && forall i :: |w.events| <= i < |r.events| ==> r.events[i].DaySelect? || r.events[i].DayDeselect?
  {
  }

  // Cell identity: every step keeps the shown cells' ids fresh, so a cell built
  // by a later set_table never equals one built before it.

  /** set_year rebuilds the table with fresh ids. */
  lemma SetYearKeepsFreshIds(w: WidgetView, year: int)
    ensures Table.FreshIds(SetYearStep(w, year).state.table)
  {
    Table.SetTableKeepsFreshIds(w.table, year, w.month);
  }

  /** set_month keeps the table when the title fails and rebuilds it with fresh ids otherwise. */
  lemma SetMonthKeepsFreshIds(w: WidgetView, month: int, format: Option<MonthTitle.MonthFormat>)
    requires Table.FreshIds(w.table)
    ensures Table.FreshIds(SetMonthStep(w, month, format).state.table)
  {
    Table.SetTableKeepsFreshIds(w.table, w.year, month);
  }

  /** next_month keeps the ids fresh. */
  lemma NextMonthKeepsFreshIds(w: WidgetView)
    requires Table.FreshIds(w.table)
    ensures Table.FreshIds(NextMonthStep(w).state.table)
  {
    if w.month + 1 >= 13 {
      NextYearKeepsFreshIds(w);
    } else {
      SetMonthKeepsFreshIds(w, w.month + 1, None);
      assert NextMonthStep(w) == SetMonthStep(w, w.month + 1, None);
    }
  }

  /** next_month from December: set_year, then set_month. */
  lemma NextYearKeepsFreshIds(w: WidgetView)
    requires Table.FreshIds(w.table) && w.month + 1 >= 13
    ensures Table.FreshIds(NextMonthStep(w).state.table)
  {
    YearThenMonthKeepsFreshIds(w, w.year + 1, (w.month + 1) % 12);
    assert NextMonthStep(w) == YearThenMonth(w, w.year + 1, (w.month + 1) % 12);
  }

  /** previous_month keeps the ids fresh. */
  lemma PreviousMonthKeepsFreshIds(w: WidgetView)
    requires Table.FreshIds(w.table)
    ensures Table.FreshIds(PreviousMonthStep(w).state.table)
  {
    if w.month - 1 <= 0 {
      PreviousYearKeepsFreshIds(w);
    } else {
      SetMonthKeepsFreshIds(w, w.month - 1, None);
      assert PreviousMonthStep(w) == SetMonthStep(w, w.month - 1, None);
    }
  }

  /** previous_month from January: set_year, then set_month. */
  lemma PreviousYearKeepsFreshIds(w: WidgetView)
    requires Table.FreshIds(w.table) && w.month - 1 <= 0
    ensures Table.FreshIds(PreviousMonthStep(w).state.table)
  {
    YearThenMonthKeepsFreshIds(w, w.year - 1, w.month - 1 + 12);
    assert PreviousMonthStep(w) == YearThenMonth(w, w.year - 1, w.month - 1 + 12);
  }

  /** set_year then set_month keep the ids fresh. */
  lemma YearThenMonthKeepsFreshIds(w: WidgetView, year: int, month: int)
    ensures Table.FreshIds(YearThenMonth(w, year, month).state.table)
  {
    var s := SetYearStep(w, year);
    SetYearKeepsFreshIds(w, year);
    if s.error.None? {
      SetMonthKeepsFreshIds(s.state, month, None);
    }
  }

  /** Selecting and deselecting recolour cells but keep the cells and the id counter. */
  lemma SelectionKeepsCells(v: WidgetView, cell: Cell)
    ensures DeselectStep(v).state.table.cells == v.table.cells
    ensures DeselectStep(v).state.table.nextId == v.table.nextId
    ensures SelectStep(v, cell).state.table.cells == v.table.cells
    ensures SelectStep(v, cell).state.table.nextId == v.table.nextId
  {
  }

  /** The month move of a release keeps the ids fresh. */
  lemma ReleaseMoveKeepsFreshIds(w: WidgetView, cell: Cell)
    requires Table.FreshIds(w.table)
    ensures Table.FreshIds(ReleaseMove(w, cell).state.table)
  {
    if cell.month < w.month {
      PreviousMonthKeepsFreshIds(w.(events := w.events + [PreviousMonthEvent(cell, w.month, cell.month)]));
    } else if cell.month > w.month {
      NextMonthKeepsFreshIds(w.(events := w.events + [NextMonthEvent(cell, w.month, cell.month)]));
    }
  }

  /** After its month move a release only recolours: the cells and the id counter stay. */
  lemma ReleaseKeepsMovedCells(w: WidgetView, cell: Cell)
    ensures var r, nav := CellReleasedStep(w, cell).state.table, ReleaseMove(w, cell).state.table;
      r.cells == nav.cells && r.nextId == nav.nextId
  {
    var v := ReleaseMove(w, cell).state;
    SelectionKeepsCells(v, cell);
    SelectionKeepsCells(DeselectStep(v).state, cell);
  }

  /** A release moves the month at most once and otherwise only recolours, so the ids stay fresh. */
  lemma ReleaseKeepsFreshIds(w: WidgetView, cell: Cell)
    requires Table.FreshIds(w.table)
    ensures Table.FreshIds(CellReleasedStep(w, cell).state.table)
  {
    ReleaseMoveKeepsFreshIds(w, cell);
    ReleaseKeepsMovedCells(w, cell);
  }

  /** The widget's load_theme keeps the ids fresh. */
  lemma LoadThemeKeepsFreshIds(w: WidgetView, theme: Theme)
    requires Table.FreshIds(w.table)
    ensures Table.FreshIds(LoadThemeStep(w, theme).state.table)
  {
    Table.LoadThemeKeepsFreshIds(w.table, theme);
  }
}
