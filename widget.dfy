/**
 * CalendarWidget: the title, the weekday header and the date table, the
 * displayed (year, month), the selected cell and the events dispatched to
 * listeners. Month navigation happens through the title's arrow buttons or by
 * releasing a cell of another month.
 */
module Calendar {
  import opened Failures
  import opened Text
  import opened Colors
  import opened DateGrid
  import opened Header
  import MonthTitle
  import Table

  /** The events the widget dispatches, with their arguments. */
  datatype Event =
    | PreviousMonthEvent(cell: Cell, monthNow: int, monthSelected: int)
    | NextMonthEvent(cell: Cell, monthNow: int, monthSelected: int)
    | DaySelect(cell: Cell)
    | DayDeselect(cell: Cell)

  /** do_highlight_pressed_day and do_deselect_double_pressed_day. */
  datatype Config = Config(highlightPressedDay: bool, deselectDoublePressedDay: bool)

  /**
   * The widget's state. `pressedBackground` is absent until load_theme has set
   * it, `savedBackground` (pressed_background_before) until a highlighted
   * selection has saved one; `background` is the colour drawn behind the widget.
   */
  datatype WidgetView = WidgetView(
    config: Config,
    year: int,
    month: int,
    title: MonthTitle.Title,
    headerStyles: seq<Option<LabelStyle>>,
    table: Table.TableView,
    background: Option<Color>,
    pressedBackground: Option<Color>,
    pressed: Option<Cell>,
    savedBackground: Option<Color>,
    events: seq<Event>)

  /** set_year: the year label shows str(year) and the table is rebuilt for the current month. */
  function SetYearStep(w: WidgetView, year: int): (r: Outcome<WidgetView>)
    ensures r.state.year == year && r.state.month == w.month
    ensures r.state.events == w.events && r.state.pressed == w.pressed && r.state.config == w.config
    ensures r.error.Some? ==> r.error == Some(ValueError) || r.error == Some(OverflowError)
  {
    var labelled := w.(year := year, title := w.title.(yearText := IntToString(year)));
    var r := Table.SetTableStep(w.table, year, w.month);
    Outcome(labelled.(table := r.state), r.error)
  }

  /** set_month: month_now is written first, then the title, then the table. */
  function SetMonthStep(w: WidgetView, month: int, format: Option<MonthTitle.MonthFormat>): (r: Outcome<WidgetView>)
    ensures r.state.year == w.year && r.state.month == month
    ensures r.state.events == w.events && r.state.pressed == w.pressed && r.state.config == w.config
  {
    var moved := w.(month := month);
    var t := MonthTitle.SetMonthStep(w.title, month, format);
    if t.error.Some? then Outcome(moved.(title := t.state), t.error)
    else
      var r := Table.SetTableStep(w.table, w.year, month);
      Outcome(moved.(title := t.state, table := r.state), r.error)
  }

  /** set_year followed, if it succeeds, by set_month: a move across a year boundary. */
  function YearThenMonth(w: WidgetView, year: int, month: int): Outcome<WidgetView> {
    var r := SetYearStep(w, year);
    if r.error.Some? then r else SetMonthStep(r.state, month, None)
  }

  /** next_month: past December the year is advanced first, with the current month. */
  function NextMonthStep(w: WidgetView): (r: Outcome<WidgetView>)
    ensures r.state.events == w.events && r.state.pressed == w.pressed && r.state.config == w.config
  {
    var next := w.month + 1;
    if next >= 13 then YearThenMonth(w, w.year + 1, next % 12)
    else SetMonthStep(w, next, None)
  }

  /** previous_month: before January the year is moved back first, with the current month. */
  function PreviousMonthStep(w: WidgetView): (r: Outcome<WidgetView>)
    ensures r.state.events == w.events && r.state.pressed == w.pressed && r.state.config == w.config
  {
    var previous := w.month - 1;
    if previous <= 0 then YearThenMonth(w, w.year - 1, previous + 12)
    else SetMonthStep(w, previous, None)
  }

  /** reload: `month or month_now`, so None and 0 both mean the current month. */
  function ReloadStep(w: WidgetView, month: Option<int>): (r: Outcome<WidgetView>)
    ensures r.state.year == w.year
    ensures month.None? || month == Some(0) ==> r.state.month == w.month
    ensures r.state.events == w.events && r.state.pressed == w.pressed && r.state.config == w.config
  {
    var m := if month.None? || month.value == 0 then w.month else month.value;
    SetMonthStep(w, m, None)
  }

  /** select_cell: dispatch, remember the cell, and highlight it when asked to. */
  function SelectStep(w: WidgetView, cell: Cell): (r: Outcome<WidgetView>)
    ensures r.state.pressed == Some(cell) && r.state.events == w.events + [DaySelect(cell)]
    ensures r.state.year == w.year && r.state.month == w.month
    ensures r.state.table.cells == w.table.cells && r.state.table.nextId == w.table.nextId
    ensures r.error.Some? <==> w.config.highlightPressedDay && w.pressedBackground.None?
    ensures r.error.Some? ==> r.error == Some(AttributeError)
  {
    var selected := w.(events := w.events + [DaySelect(cell)], pressed := Some(cell));
    if !w.config.highlightPressedDay then Outcome(selected, None)
    else
      var saved := selected.(savedBackground := Some(Table.BackgroundOf(w.table, cell)));
      if w.pressedBackground.None? then Outcome(saved, Some(AttributeError))
      else Outcome(saved.(table := w.table.(background := w.table.background[cell := w.pressedBackground.value])), None)
  }

  /**
   * deselect_cell: with a cell selected, dispatch and give it back the saved
   * background; reading a background that was never saved raises AttributeError
   * and leaves the cell selected.
   */
  function DeselectStep(w: WidgetView): (r: Outcome<WidgetView>)
    ensures r.state.year == w.year && r.state.month == w.month
    ensures r.state.table.cells == w.table.cells && r.state.table.nextId == w.table.nextId
    ensures r.error.Some? <==> w.pressed.Some? && w.savedBackground.None?
    ensures r.error.Some? ==> r.error == Some(AttributeError) && r.state.pressed == w.pressed
    ensures r.error.None? ==> r.state.pressed.None?
    ensures r.state.events == w.events + (if w.pressed.Some? then [DayDeselect(w.pressed.value)] else [])
  {
    if w.pressed.None? then Outcome(w, None)
    else
      var dispatched := w.(events := w.events + [DayDeselect(w.pressed.value)]);
      if w.savedBackground.None? then Outcome(dispatched, Some(AttributeError))
      else
        var restored := w.table.(background := w.table.background[w.pressed.value := w.savedBackground.value]);
        Outcome(dispatched.(table := restored, pressed := None), None)
  }

  /**
   * datecell_released: a cell of an earlier or later month (compared as month
   * numbers) first moves the calendar one month; then the cell is selected,
   * or, when it was already selected and double presses deselect, deselected.
   */
  function CellReleasedStep(w: WidgetView, cell: Cell): (r: Outcome<WidgetView>)
    ensures r.state.config == w.config && w.events <= r.state.events
    ensures r.error.None? ==> r.state.pressed == Some(cell) || r.state.pressed.None?
  {
    var nav := ReleaseMove(w, cell);
    if nav.error.Some? then nav
    else
      var v := nav.state;
      if Some(cell) != v.pressed || !v.config.deselectDoublePressedDay then
        var d := DeselectStep(v);
        if d.error.Some? then d else SelectStep(d.state, cell)
      else DeselectStep(v)
  }

  /**
   * The first half of datecell_released: dispatch on_previous_month or
   * on_next_month and move one month when the cell's month number is smaller
   * or larger than the displayed one; nothing for a cell of the displayed month.
   */
  function ReleaseMove(w: WidgetView, cell: Cell): (r: Outcome<WidgetView>)
    ensures r.state.pressed == w.pressed && r.state.config == w.config
    ensures cell.month < w.month ==> r.state.events == w.events + [PreviousMonthEvent(cell, w.month, cell.month)]
    ensures cell.month > w.month ==> r.state.events == w.events + [NextMonthEvent(cell, w.month, cell.month)]
    ensures cell.month == w.month ==> r == Outcome(w, None)
  {
    if cell.month < w.month then
      PreviousMonthStep(w.(events := w.events + [PreviousMonthEvent(cell, w.month, cell.month)]))
    else if cell.month > w.month then
      NextMonthStep(w.(events := w.events + [NextMonthEvent(cell, w.month, cell.month)]))
    else Outcome(w, None)
  }

  /**
   * load_theme: the widget background, the title colours and the header style
   * are set, then the table's theme; pressed_background only after the table
   * succeeded.
   */
  function LoadThemeStep(w: WidgetView, theme: Theme): (r: Outcome<WidgetView>)
    ensures r.state.year == w.year && r.state.month == w.month
    ensures r.state.events == w.events && r.state.pressed == w.pressed && r.state.config == w.config
    ensures r.state.table.cells == w.table.cells && r.state.table.theme == Some(theme)
    ensures r.error.Some? <==> |w.table.cells| < 22
    ensures r.error.Some? ==> r.error == Some(IndexError)
  {
    var styled := w.(
      background := Some(theme.backgroundColor),
      title := w.title.(monthColor := Some(theme.monthColor), yearColor := Some(theme.yearColor)),
      headerStyles := ZipStyle(w.headerStyles, HeaderStyle(theme)));
    var r := Table.LoadThemeStep(w.table, theme);
    if r.error.Some? then Outcome(styled.(table := r.state), r.error)
    else Outcome(styled.(table := r.state, pressedBackground := Some(theme.pressedBackground)), None)
  }

  /** The widget before __init__ shows anything: the layout's title and an empty table. */
  function Blank(year: int, month: int, config: Config, defaultBackground: Color): WidgetView {
    WidgetView(config, year, month, MonthTitle.InitialTitle, seq(7, _ => None),
               Table.EmptyTable(defaultBackground), None, None, None, None, [])
  }

  /** __init__ for today's (year, month): set_month with the month format, then load_theme. */
  function ConstructStep(year: int, month: int, theme: Theme, config: Config,
                         format: MonthTitle.MonthFormat, defaultBackground: Color): (r: Outcome<WidgetView>)
    ensures r.state.year == year && r.state.month == month && r.state.config == config
    ensures r.state.events == [] && r.state.pressed.None? && r.state.savedBackground.None?
  {
    var r := SetMonthStep(Blank(year, month, config, defaultBackground), month, Some(format));
    if r.error.Some? then r else LoadThemeStep(r.state, theme)
  }

  /**
   * The widget object. Its title, header and table are objects of their own,
   * created with it and updated in place; the view gathers the whole state.
   */
  class CalendarWidget {
    const config: Config
    const title: MonthTitle.TitleLabel
    const header: DayHeader
    const table: Table.DayTable
    var year: int
    var month: int
    var background: Option<Color>
    var pressedBackground: Option<Color>
    var pressed: Option<Cell>
    var savedBackground: Option<Color>
    var events: seq<Event>

    function View(): WidgetView
      reads this, title, header, table
    {
      WidgetView(config, year, month, title.View(), header.styles, table.View(),
                 background, pressedBackground, pressed, savedBackground, events)
    }

    /**
     * __init__ for today's (year, month), which the caller passes in; the month
     * format and the theme are set as __init__ sets them. __init__ raises when
     * either step fails, so those cases are excluded here.
     */
    constructor (year: int, month: int, theme: Theme, config: Config, format: MonthTitle.MonthFormat,
                 dayNames: seq<string>, defaultBackground: Color)
      requires |dayNames| == 7
      requires ConstructStep(year, month, theme, config, format, defaultBackground).error.None?
      ensures View() == ConstructStep(year, month, theme, config, format, defaultBackground).state
      ensures header.names == HeaderNames(dayNames)
      ensures fresh(title) && fresh(header) && fresh(table)
    {
      this.config := config;
      this.year, this.month := year, month;
      title := new MonthTitle.TitleLabel();
      header := new DayHeader(dayNames);
      table := new Table.DayTable(defaultBackground);
      background, pressedBackground := None, None;
      pressed, savedBackground := None, None;
      events := [];
      new;
      assert View() == Blank(year, month, config, defaultBackground);
      var err := SetMonth(month, Some(format));
      err := LoadTheme(theme);
    }

    /** set_year */
    method SetYear(year': int) returns (err: Option<Error>)
      modifies this, title, table
      ensures Outcome(View(), err) == SetYearStep(old(View()), year')
    {
      year := year';
      title.SetYear(IntToString(year'));
      err := table.SetTable(year', month);
    }

    /** set_month */
    method SetMonth(month': int, format: Option<MonthTitle.MonthFormat>) returns (err: Option<Error>)
      modifies this, title, table
      ensures Outcome(View(), err) == SetMonthStep(old(View()), month', format)
    {
      month := month';
      err := title.SetMonth(month', format);
      if err.Some? {
        return;
      }
      err := table.SetTable(year, month');
    }

    /** next_month */
    method NextMonth() returns (err: Option<Error>)
      modifies this, title, table
      ensures Outcome(View(), err) == NextMonthStep(old(View()))
    {
      var next := month + 1;
      if next >= 13 {
        err := SetYear(year + 1);
        if err.Some? {
          return;
        }
        next := next % 12;
      }
      err := SetMonth(next, None);
    }

    /** previous_month */
    method PreviousMonth() returns (err: Option<Error>)
      modifies this, title, table
      ensures Outcome(View(), err) == PreviousMonthStep(old(View()))
    {
      var previous := month - 1;
      if previous <= 0 {
        err := SetYear(year - 1);
        if err.Some? {
          return;
        }
        previous := previous + 12;
      }
      err := SetMonth(previous, None);
    }

    /** reload */
    method Reload(month': Option<int>) returns (err: Option<Error>)
      modifies this, title, table
      ensures Outcome(View(), err) == ReloadStep(old(View()), month')
    {
      err := SetMonth(if month'.None? || month'.value == 0 then month else month'.value, None);
    }

    /** select_cell */
    method Select(cell: Cell) returns (err: Option<Error>)
      modifies this, table
      ensures Outcome(View(), err) == SelectStep(old(View()), cell)
    {
      events := events + [DaySelect(cell)];
      pressed := Some(cell);
      err := None;
      if config.highlightPressedDay {
        savedBackground := Some(Table.BackgroundOf(table.View(), cell));
        if pressedBackground.None? {
          return Some(AttributeError);
        }
        table.SetBackground(cell, pressedBackground.value);
      }
    }

    /** deselect_cell */
    method Deselect() returns (err: Option<Error>)
      modifies this, table
      ensures Outcome(View(), err) == DeselectStep(old(View()))
    {
      err := None;
      if pressed.Some? {
        events := events + [DayDeselect(pressed.value)];
        if savedBackground.None? {
          return Some(AttributeError);
        }
        table.SetBackground(pressed.value, savedBackground.value);
      }
      pressed := None;
    }

    /** datecell_released, the callback every cell of the table calls when released. */
    method CellReleased(cell: Cell) returns (err: Option<Error>)
      modifies this, title, table
      ensures Outcome(View(), err) == CellReleasedStep(old(View()), cell)
    {
      if cell.month < month {
        events := events + [PreviousMonthEvent(cell, month, cell.month)];
        err := PreviousMonth();
      } else if cell.month > month {
        events := events + [NextMonthEvent(cell, month, cell.month)];
        err := NextMonth();
      } else {
        err := None;
      }
      if err.Some? {
        return;
      }
      if Some(cell) != pressed || !config.deselectDoublePressedDay {
        err := Deselect();
        if err.Some? {
          return;
        }
        err := Select(cell);
      } else {
        err := Deselect();
      }
    }

    /** load_theme */
    method LoadTheme(theme: Theme) returns (err: Option<Error>)
      modifies this, title, header, table
      ensures Outcome(View(), err) == LoadThemeStep(old(View()), theme)
    {
      background := Some(theme.backgroundColor);
      title.LoadStyle(theme.monthColor, theme.yearColor);
      header.LoadStyle(HeaderStyle(theme));
      err := table.LoadTheme(theme);
      if err.Some? {
        return;
      }
      pressedBackground := Some(theme.pressedBackground);
    }
  }
}
