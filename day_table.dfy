/**
 * DayTable: the 6 x 7 grid of date cells. set_table rebuilds the cells for a
 * (year, month) and reloads the stored theme; load_theme colours every cell by
 * comparing its month number with that of the grid's centre cell.
 */
module Table {
  import opened Failures
  import opened Dates
  import opened Colors
  import opened DateGrid

  /**
   * The table's state: the cells it shows in the order they were added, the
   * next fresh cell id, the theme stored by load_theme (absent until the first
   * call), and the background and foreground colour each cell widget was given.
   * A cell never given a background shows the cell class's default one.
   */
  datatype TableView = TableView(
    cells: seq<Cell>,
    nextId: CellId,
    theme: Option<Theme>,
    background: map<Cell, Color>,
    foreground: map<Cell, Color>,
    defaultBackground: Color)

  function EmptyTable(defaultBackground: Color): TableView {
    TableView([], 0, None, map[], map[], defaultBackground)
  }

  /** The background_color a cell widget currently has. */
  function BackgroundOf(t: TableView, c: Cell): Color {
    if c in t.background then t.background[c] else t.defaultBackground
  }

  /**
   * The month of self.children[21]. Kivy keeps children newest first, so that
   * is the cell added 22nd from the end.
   */
  function CentreMonth(cells: seq<Cell>): int
    requires |cells| >= 22
  {
    cells[|cells| - 22].month
  }

  /** The background load_theme gives a cell, for the centre cell's month. */
  function ThemedBackground(c: Cell, centre: int, theme: Theme): Color {
    MonthPalette(c.month, centre, theme).background
  }

  /** The colour load_theme gives a cell through set_color, for the centre cell's month. */
  function ThemedForeground(c: Cell, centre: int, theme: Theme): Color {
    DayColor(c.day, theme, MonthPalette(c.month, centre, theme).color)
  }

  function Backgrounds(cells: seq<Cell>, centre: int, theme: Theme): map<Cell, Color> {
    map c | c in cells :: ThemedBackground(c, centre, theme)
  }

  function Foregrounds(cells: seq<Cell>, centre: int, theme: Theme): map<Cell, Color> {
    map c | c in cells :: ThemedForeground(c, centre, theme)
  }

  /**
   * load_theme: the theme is stored first; with fewer than 22 cells reading
   * children[21] raises IndexError, otherwise every cell is recoloured.
   */
  function LoadThemeStep(t: TableView, theme: Theme): (r: Outcome<TableView>)
    ensures r.state.cells == t.cells && r.state.nextId == t.nextId && r.state.theme == Some(theme)
    ensures r.error.Some? <==> |t.cells| < 22
    ensures r.error.Some? ==> r.error == Some(IndexError)
  {
    var stored := t.(theme := Some(theme));
    if |t.cells| < 22 then Outcome(stored, Some(IndexError))
    else
      var centre := CentreMonth(t.cells);
      Outcome(stored.(background := t.background + Backgrounds(t.cells, centre, theme),
                      foreground := t.foreground + Foregrounds(t.cells, centre, theme)), None)
  }

  /**
   * set_table up to its loop: the old cells are removed first; strptime rejects
   * a year outside 1000..9999 or a month outside 1..12 (ValueError); the cells
   * are added one date at a time, and stepping past 9999-12-31 raises
   * OverflowError.
   */
  function LayOutStep(t: TableView, year: int, month: int): (r: Outcome<TableView>)
    ensures r.state.theme == t.theme && r.state.background == t.background && r.state.foreground == t.foreground
    ensures r.state.nextId >= t.nextId && |r.state.cells| <= CellCount
    ensures r.error == Some(ValueError) <==> !StrptimeAccepts(year, month)
    ensures r.error.Some? ==> r.error == Some(ValueError) || r.error == Some(OverflowError)
    ensures r.error.None? ==> |r.state.cells| == CellCount
  {
    if !StrptimeAccepts(year, month) then Outcome(t.(cells := []), Some(ValueError))
    else LayOutFrom(t, TopLeft(year, month), month)
  }

  /**
   * set_table's loop from the top-left date `start`: the cells up to the one
   * holding 9999-12-31 and OverflowError if that date is reached, else all 42.
   */
  function LayOutFrom(t: TableView, start: Date, month: int): (r: Outcome<TableView>)
    requires Valid(start) && start.year >= 1
    ensures r.state.theme == t.theme && r.state.background == t.background && r.state.foreground == t.foreground
    ensures |r.state.cells| <= CellCount && r.state.nextId == t.nextId + |r.state.cells|
    ensures r.error.Some? ==> r.error == Some(OverflowError)
    ensures r.error.None? ==> |r.state.cells| == CellCount
  {
    var k := LastDateIndex(start, CellCount);
    var n := if k < CellCount then k + 1 else CellCount;
    Outcome(t.(cells := Cells(start, month, t.nextId, n), nextId := t.nextId + n),
            if k < CellCount then Some(OverflowError) else None)
  }

  /** The loop's result does not depend on the cells shown before: set_table has removed them. */
  lemma LayOutFromIgnoresCells(t: TableView, start: Date, month: int)
    requires Valid(start) && start.year >= 1
    ensures LayOutFrom(t.(cells := []), start, month) == LayOutFrom(t, start, month)
  {
  }

  /** set_table: the grid is laid out, then a stored theme is reloaded. */
  function SetTableStep(t: TableView, year: int, month: int): (r: Outcome<TableView>)
    ensures r.state.theme == t.theme && r.state.nextId >= t.nextId
    ensures r.error == Some(ValueError) <==> !StrptimeAccepts(year, month)
    ensures r.error.Some? ==> r.error == Some(ValueError) || r.error == Some(OverflowError)
  {
    var laid := LayOutStep(t, year, month);
    if laid.error.None? && t.theme.Some? then LoadThemeStep(laid.state, t.theme.value) else laid
  }

  /** Every cell shown has an id below the next fresh one, and ids increase in order of addition. */
  predicate FreshIds(t: TableView) {
    && (forall i :: 0 <= i < |t.cells| ==> t.cells[i].id < t.nextId)
    && (forall i, j :: 0 <= i < j < |t.cells| ==> t.cells[i].id < t.cells[j].id)
  }

  // Properties of set_table and load_theme.

  /** load_theme fails exactly when the table has no children[21]; the theme is stored either way. */
  lemma LoadThemeFailsOnlyWithoutCentre(t: TableView, theme: Theme)
    ensures LoadThemeStep(t, theme).state.theme == Some(theme)
    ensures LoadThemeStep(t, theme).state.cells == t.cells
    ensures LoadThemeStep(t, theme).error.Some? <==> |t.cells| < 22
    ensures LoadThemeStep(t, theme).error.Some? ==> LoadThemeStep(t, theme).state == t.(theme := Some(theme))
  {
  }

  /** After load_theme succeeds, each shown cell has the colours its month and column call for. */
  lemma LoadThemeColoursEveryCell(t: TableView, theme: Theme, c: Cell)
    requires |t.cells| >= 22 && c in t.cells
    ensures var r := LoadThemeStep(t, theme).state;
      && BackgroundOf(r, c) == ThemedBackground(c, CentreMonth(t.cells), theme)
      && c in r.foreground && r.foreground[c] == ThemedForeground(c, CentreMonth(t.cells), theme)
  {
  }

  /** A year or month strptime rejects leaves the table empty. */
  lemma SetTableRejects(t: TableView, year: int, month: int, theme: Theme)
    requires !StrptimeAccepts(year, month)
    ensures SetTableStep(t, year, month) == Outcome(t.(cells := []), Some(ValueError))
    ensures LoadThemeStep(SetTableStep(t, year, month).state, theme).error == Some(IndexError)
  {
  }

  /**
   * set_table succeeds exactly for the months strptime accepts other than
   * December 9999; it then shows the month's full grid with fresh ids, and a
   * stored theme colours every cell against the requested month (the centre
   * cell always belongs to it).
   */
  lemma SetTableShowsGrid(t: TableView, year: int, month: int)
    ensures var r := SetTableStep(t, year, month);
      && (r.error == None <==> StrptimeAccepts(year, month) && !(year == 9999 && month == 12))
      && (r.error == None ==>
          && r.state.cells == Grid(year, month, t.nextId)
          && r.state.nextId == t.nextId + CellCount
          && r.state.theme == t.theme
          && (t.theme.Some? ==> forall c :: c in r.state.cells ==>
                BackgroundOf(r.state, c) == ThemedBackground(c, month, t.theme.value)
                && r.state.foreground[c] == ThemedForeground(c, month, t.theme.value)))
  {
    if StrptimeAccepts(year, month) {
      OverflowOnlyInDecember9999(year, month);
      FirstAndCentreCells(year, month, t.nextId);
      assert CentreMonth(Grid(year, month, t.nextId)) == month;
    }
  }

  /**
   * When set_table overflows (which only December 9999 does), the cells up to
   * 9999-12-31 are added, then the next date step raises OverflowError, and no
   * theme is reloaded.
   */
  lemma SetTableOverflows(t: TableView, year: int, month: int)
    requires StrptimeAccepts(year, month) && Overflows(year, month)
    ensures var r := SetTableStep(t, year, month);
      && r.error == Some(OverflowError)
      && r.state.cells == Grid(year, month, t.nextId)[..31 + LeadingDays(year, month)]
      && r.state.background == t.background && r.state.foreground == t.foreground
  {
    OverflowPlacesLastMonth(year, month);
    LayOutStepBuilt(t, year, month);
    var n := 31 + LeadingDays(year, month);
    CellsPrefix(TopLeft(year, month), month, t.nextId, CellCount, n);
  }

  /** Cells that are not new keep their colours through set_table, and ids are never reused. */
  lemma SetTableKeepsOtherCells(t: TableView, year: int, month: int, c: Cell)
    requires c.id < t.nextId
    ensures var r := SetTableStep(t, year, month).state;
      && r.nextId >= t.nextId
      && BackgroundOf(r, c) == BackgroundOf(t, c)
      && (c in r.foreground <==> c in t.foreground)
      && (c in t.foreground ==> r.foreground[c] == t.foreground[c])
      && c !in r.cells
  {
    if StrptimeAccepts(year, month) {
      CellIds(TopLeft(year, month), month, t.nextId, CellsPlaced(year, month));
    }
  }

  lemma SetTableKeepsFreshIds(t: TableView, year: int, month: int)
    ensures FreshIds(SetTableStep(t, year, month).state)
  {
    if StrptimeAccepts(year, month) {
      CellIds(TopLeft(year, month), month, t.nextId, CellsPlaced(year, month));
    }
  }

  lemma LoadThemeKeepsFreshIds(t: TableView, theme: Theme)
    requires FreshIds(t)
    ensures FreshIds(LoadThemeStep(t, theme).state)
  {
  }

  /**
   * The colour a grid position gets when the theme is loaded for the requested
   * month. Months are compared as plain numbers: in a January grid the leading
   * December days count as "next", in a December grid the trailing January days
   * as "previous". Sunday and Saturday columns keep their own foreground.
   */
  lemma GridColours(year: int, month: int, firstId: CellId, theme: Theme, i: int)
    requires StrptimeAccepts(year, month) && 0 <= i < CellCount
    ensures var c, d := Grid(year, month, firstId)[i], LeadingDays(year, month);
      var palette :=
        if d <= i < d + DaysInMonth(year, month) then LabelStyle(theme.nowDaysColor, theme.nowDaysBackground)
        else if (i < d && month > 1) || (i >= d && month == 12)
        then LabelStyle(theme.previousDaysColor, theme.previousDaysBackground)
        else LabelStyle(theme.nextDaysColor, theme.nextDaysBackground);
      && ThemedBackground(c, month, theme) == palette.background
      && ThemedForeground(c, month, theme) ==
           if i % 7 == 0 then theme.sunday else if i % 7 == 6 then theme.saturday else palette.color
  {
    CellsOfRequestedMonth(year, month, firstId, i);
  }

  /** The DayTable widget. */
  class DayTable {
    var cells: seq<Cell>
    var nextId: CellId
    var theme: Option<Theme>
    var background: map<Cell, Color>
    var foreground: map<Cell, Color>
    const defaultBackground: Color

    function View(): TableView
      reads this
    {
      TableView(cells, nextId, theme, background, foreground, defaultBackground)
    }

    constructor (defaultBackground: Color)
      ensures View() == EmptyTable(defaultBackground)
    {
      cells := [];
      nextId := 0;
      theme := None;
      background := map[];
      foreground := map[];
      this.defaultBackground := defaultBackground;
    }

    /** A cell widget's background_color is assigned from outside the table. */
    method SetBackground(c: Cell, color: Color)
      modifies this
      ensures View() == old(View()).(background := old(background)[c := color])
      ensures BackgroundOf(View(), c) == color
    {
      background := background[c := color];
    }

    method SetTable(year: int, month: int) returns (err: Option<Error>)
      modifies this
      ensures Outcome(View(), err) == SetTableStep(old(View()), year, month)
    {
      err := LayOut(year, month);
      if err.None? && theme.Some? {
        err := LoadTheme(theme.value);
      }
    }

    /** set_table up to its loop: clear, parse the 1st, add the cells. */
    method LayOut(year: int, month: int) returns (err: Option<Error>)
      modifies this
      ensures Outcome(View(), err) == LayOutStep(old(View()), year, month)
    {
      ghost var before := View();
      cells := [];
      if !StrptimeAccepts(year, month) {
        return Some(ValueError);
      }
      // date_first - timedelta(days=day_index), day_index = (weekday() + 1) % 7
      var date := TopLeft(year, month);
      LayOutFromIgnoresCells(before, date, month);
      err := AddCells(date, month);
    }

    /**
     * set_table's loop: one cell per date from `start` on, until the step past
     * 9999-12-31 overflows.
     */
    method AddCells(start: Date, month: int) returns (err: Option<Error>)
      requires Valid(start) && start.year >= 1 && cells == []
      modifies this
      ensures Outcome(View(), err) == LayOutFrom(old(View()), start, month)
    {
      var date := start;
      var firstId := nextId;
      var i := 0;
      while i < Rows * Cols
        invariant 0 <= i <= CellCount
        invariant cells == Cells(start, month, firstId, i)
        invariant nextId == firstId + i
        invariant date == DaysAfter(start, i)
        invariant LastDateIndex(start, CellCount) >= i
        invariant theme == old(theme) && background == old(background) && foreground == old(foreground)
      {
        LastDateIndexAt(start, CellCount, i);
        cells := cells + [Cell(nextId, i % 7, date.day, date.month, date.month == month)];
        nextId := nextId + 1;
        if date == LastDate {
          return Some(OverflowError);
        }
        date := NextDay(date);
        i := i + 1;
      }
      return None;
    }

    /** Recolours the cells in children order, newest first. */
    method LoadTheme(theme': Theme) returns (err: Option<Error>)
      modifies this
      ensures Outcome(View(), err) == LoadThemeStep(old(View()), theme')
    {
      theme := Some(theme');
      if |cells| < 22 {
        return Some(IndexError);
      }
      var centre := cells[|cells| - 22].month;
      var k := |cells|;
      while k > 0
        invariant 0 <= k <= |cells|
        invariant cells == old(cells) && nextId == old(nextId) && theme == Some(theme')
        invariant background == old(background) + Backgrounds(cells[k..], centre, theme')
        invariant foreground == old(foreground) + Foregrounds(cells[k..], centre, theme')
      {
        k := k - 1;
        var c := cells[k];
        RecolourOneMore(cells, k, centre, theme');
        UpdateUnion(old(background), Backgrounds(cells[k + 1..], centre, theme'), c, ThemedBackground(c, centre, theme'));
        UpdateUnion(old(foreground), Foregrounds(cells[k + 1..], centre, theme'), c, ThemedForeground(c, centre, theme'));
        background := background[c := MonthPalette(c.month, centre, theme').background];
        foreground := foreground[c := DayColor(c.day, theme', MonthPalette(c.month, centre, theme').color)];
      }
      assert cells[0..] == cells;
      err := None;
    }
  }

  lemma UpdateUnion(a: map<Cell, Color>, b: map<Cell, Color>, c: Cell, v: Color)
    ensures (a + b)[c := v] == a + b[c := v]
  {
  }

  /** Once strptime has accepted the month, set_table places CellsPlaced cells and overflows as Overflows says. */
  lemma LayOutStepBuilt(t: TableView, year: int, month: int)
    requires StrptimeAccepts(year, month)
    ensures var n := CellsPlaced(year, month);
      LayOutStep(t, year, month) ==
        Outcome(t.(cells := Cells(TopLeft(year, month), month, t.nextId, n), nextId := t.nextId + n),
                if Overflows(year, month) then Some(OverflowError) else None)
  {
    var start := TopLeft(year, month);
    var k := LastDateIndex(start, CellCount);
    var n := CellsPlaced(year, month);
    var r := LayOutStep(t, year, month);
    assert r == LayOutFrom(t, start, month);
    assert n == if k < CellCount then k + 1 else CellCount;
    assert r.state == t.(cells := Cells(start, month, t.nextId, n), nextId := t.nextId + n);
    assert r.error == if Overflows(year, month) then Some(OverflowError) else None;
  }

  /** Recolouring one more cell extends the maps by that cell. */
  lemma RecolourOneMore(cells: seq<Cell>, k: int, centre: int, theme: Theme)
    requires 0 <= k < |cells|
    ensures Backgrounds(cells[k..], centre, theme)
      == Backgrounds(cells[k + 1..], centre, theme)[cells[k] := ThemedBackground(cells[k], centre, theme)]
    ensures Foregrounds(cells[k..], centre, theme)
      == Foregrounds(cells[k + 1..], centre, theme)[cells[k] := ThemedForeground(cells[k], centre, theme)]
  {
    assert forall c :: c in cells[k..] <==> c == cells[k] || c in cells[k + 1..];
  }
}
