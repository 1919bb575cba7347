/**
 * The 6 x 7 date grid DayTable.set_table lays out for a (year, month): it starts
 * on the Sunday on or before the 1st and runs through 42 consecutive dates.
 */
module DateGrid {
  import opened Dates
  import opened Text

  const Rows := 6
  const Cols := 7
  const CellCount := Rows * Cols

  /** Identity of a cell widget: each cell set_table creates gets a fresh one. */
  type CellId = nat

  /**
   * A DateCell: `day` is its column (Sunday = 0), `date` its day of the month,
   * `month` its month number and `isNowMonth` whether that is the requested month.
   */
  datatype Cell = Cell(id: CellId, day: int, date: int, month: int, isNowMonth: bool)

  /** DateCell's label: the day alone in the requested month, "month/day" outside it. */
  function CellText(c: Cell): string {
    if c.isNowMonth then IntToString(c.date) else IntToString(c.month) + "/" + IntToString(c.date)
  }

  /**
   * A label holds a '/' exactly when its cell is outside the requested month;
   * inside, the label reads back as the cell's day of the month.
   */
  lemma CellTextShowsDay(c: Cell)
    ensures '/' in CellText(c) <==> !c.isNowMonth
    ensures c.isNowMonth ==> ParseInt(CellText(c)) == c.date
  {
    IntToStringRoundTrip(c.date);
    var t := CellText(c);
    if !c.isNowMonth {
      assert t[|IntToString(c.month)|] == '/';
    } else {
      assert forall i :: 0 <= i < |t| ==> t[i] != '/';
    }
  }

  /** datetime.strptime(f'{year}/{month}/1', '%Y/%m/%d') succeeds: %Y takes exactly four digits. */
  predicate StrptimeAccepts(year: int, month: int) {
    1000 <= year <= 9999 && 1 <= month <= 12
  }

  /** The month after and before (year, month) on the calendar. */
  function MonthAfter(year: int, month: int): (int, int) {
    if month == 12 then (year + 1, 1) else (year, month + 1)
  }

  function MonthBefore(year: int, month: int): (int, int) {
    if month == 1 then (year - 1, 12) else (year, month - 1)
  }

  /** (weekday() + 1) % 7 of the 1st, i.e. its weekday counted from Sunday: the number of leading cells from the month before. */
  function LeadingDays(year: int, month: int): (d: int)
    requires 1 <= month <= 12
    ensures 0 <= d < 7
  {
    SundayFirstWeekday(Date(year, month, 1))
  }

  /** The ordinal of the top-left cell. */
  function GridStart(year: int, month: int): int
    requires 1 <= month <= 12
  {
    Ordinal(Date(year, month, 1)) - LeadingDays(year, month)
  }

  /** date_first - timedelta(days=day_index): the date in the top-left cell. */
  function TopLeft(year: int, month: int): (d: Date)
    requires 1 <= month <= 12
    ensures Valid(d) && d.year >= 1
  {
    FromOrdinal(GridStart(year, month))
  }

  /** The date in grid position i: the running date after i steps. */
  function GridDate(year: int, month: int, i: nat): Date
    requires 1 <= month <= 12
  {
    DaysAfter(TopLeft(year, month), i)
  }

  /** The cell set_table adds in step i, starting from `start`. */
  function CellAt(start: Date, month: int, firstId: CellId, i: nat): Cell
    requires Valid(start) && start.year >= 1
  {
    var d := DaysAfter(start, i);
    Cell(firstId + i, i % Cols, d.day, d.month, d.month == month)
  }

  /** The first n cells set_table adds from `start`, numbered from `firstId`. */
  function Cells(start: Date, month: int, firstId: CellId, n: nat): (cells: seq<Cell>)
    requires Valid(start) && start.year >= 1
    ensures |cells| == n
  {
    if n == 0 then [] else Cells(start, month, firstId, n - 1) + [CellAt(start, month, firstId, n - 1)]
  }

  /** Cell i of the first n is the one added in step i. */
  lemma {:induction false} CellsIndex(start: Date, month: int, firstId: CellId, n: nat, i: nat)
    requires Valid(start) && start.year >= 1 && i < n
    ensures Cells(start, month, firstId, n)[i] == CellAt(start, month, firstId, i)
  {
    if i < n - 1 {
      CellsIndex(start, month, firstId, n - 1, i);
    }
  }

  /** The full grid in the order set_table adds it. */
  function Grid(year: int, month: int, firstId: CellId): (cells: seq<Cell>)
    requires 1 <= month <= 12
    ensures |cells| == CellCount
  {
    Cells(TopLeft(year, month), month, firstId, CellCount)
  }

  lemma {:induction false} CellsPrefix(start: Date, month: int, firstId: CellId, n: nat, k: nat)
    requires Valid(start) && start.year >= 1 && k <= n
    ensures Cells(start, month, firstId, n)[..k] == Cells(start, month, firstId, k)
    decreases n
  {
    if k < n {
      CellsPrefix(start, month, firstId, n - 1, k);
      assert Cells(start, month, firstId, n)[..n - 1] == Cells(start, month, firstId, n - 1);
    }
  }

  /** Cells from `start` carry the ids firstId, firstId + 1, ... in order. */
  lemma CellIds(start: Date, month: int, firstId: CellId, n: nat)
    requires Valid(start) && start.year >= 1
    ensures forall i :: 0 <= i < n ==> Cells(start, month, firstId, n)[i].id == firstId + i
  {
    forall i | 0 <= i < n
      ensures Cells(start, month, firstId, n)[i].id == firstId + i
    {
      CellsIndex(start, month, firstId, n, i);
    }
  }

  /** The first of the first n steps from `start` that reaches 9999-12-31, or n if none does. */
  function LastDateIndex(start: Date, n: nat): (k: nat)
    requires Valid(start) && start.year >= 1
    ensures k <= n
    ensures k < n ==> DaysAfter(start, k) == LastDate
  {
    if n == 0 then 0
    else
      var k := LastDateIndex(start, n - 1);
      if k < n - 1 then k else if DaysAfter(start, n - 1) == LastDate then n - 1 else n
  }

  /** No step before the first one that reaches 9999-12-31 reaches it. */
  lemma {:induction false} LastDateIndexFirst(start: Date, n: nat, j: nat)
    requires Valid(start) && start.year >= 1 && j < LastDateIndex(start, n)
    ensures DaysAfter(start, j) != LastDate
  {
    var k := LastDateIndex(start, n - 1);
    if j < k {
      LastDateIndexFirst(start, n - 1, j);
    }
  }

  /** Step i reaches 9999-12-31 exactly when it is the first to, given that none before it did. */
  lemma LastDateIndexAt(start: Date, n: nat, i: nat)
    requires Valid(start) && start.year >= 1 && i < n && i <= LastDateIndex(start, n)
    ensures DaysAfter(start, i) == LastDate ==> LastDateIndex(start, n) == i
    ensures DaysAfter(start, i) != LastDate ==> i + 1 <= LastDateIndex(start, n)
  {
    if i < LastDateIndex(start, n) {
      LastDateIndexFirst(start, n, i);
    }
  }

  /**
   * A step of the running date passes 9999-12-31 (OverflowError): it happens
   * right after the cell holding the last representable date was added.
   */
  predicate Overflows(year: int, month: int)
    requires 1 <= month <= 12
  {
    LastDateIndex(TopLeft(year, month), CellCount) < CellCount
  }

  /** The number of cells set_table has added when it stops. */
  function CellsPlaced(year: int, month: int): (n: nat)
    requires 1 <= month <= 12
    ensures n <= CellCount
  {
    if Overflows(year, month) then LastDateIndex(TopLeft(year, month), CellCount) + 1 else CellCount
  }

  // Properties of the grid.

  /** The leading cells are as many as the ordinal of the 1st modulo 7, so the grid starts on a Sunday. */
  lemma GridStartsOnSunday(year: int, month: int)
    requires 1 <= month <= 12
    ensures LeadingDays(year, month) == Ordinal(Date(year, month, 1)) % 7
    ensures GridStart(year, month) % 7 == 0
  {
    var o := Ordinal(Date(year, month, 1));
    DropRemainder(o);
  }

  lemma DropRemainder(a: int)
    ensures (a - a % 7) % 7 == 0
  {
    var q, r := a / 7, a % 7;
    assert a == 7 * q + r;
  }

  lemma GridStartPositive(year: int, month: int)
    requires StrptimeAccepts(year, month)
    ensures GridStart(year, month) >= 1
  {
  }

  /** Grid position i holds the date whose ordinal is i more than the top-left one. */
  lemma GridDateOrdinal(year: int, month: int, i: nat)
    requires StrptimeAccepts(year, month)
    ensures Ordinal(GridDate(year, month, i)) == GridStart(year, month) + i
  {
    TopLeftOrdinal(year, month);
    DaysAfterOrdinal(TopLeft(year, month), i);
  }

  /** The top-left date has the grid's starting ordinal. */
  lemma TopLeftOrdinal(year: int, month: int)
    requires StrptimeAccepts(year, month)
    ensures Ordinal(TopLeft(year, month)) == GridStart(year, month)
  {
    GridStartPositive(year, month);
    FromOrdinalInverse(GridStart(year, month));
  }

  /**
   * Grid position i holds the date i days after the top-left one, its weekday
   * counted from Sunday is i % 7, and the next position holds the next day.
   */
  lemma GridDates(year: int, month: int, i: nat)
    requires StrptimeAccepts(year, month)
    ensures Ordinal(GridDate(year, month, i)) == GridStart(year, month) + i
    ensures GridDate(year, month, i) == FromOrdinal(GridStart(year, month) + i)
    ensures SundayFirstWeekday(GridDate(year, month, i)) == i % 7
    ensures GridDate(year, month, i + 1) == NextDay(GridDate(year, month, i))
  {
    GridDateOrdinal(year, month, i);
    GridDateFromOrdinal(year, month, i);
    GridDateWeekday(year, month, i);
  }

  /** Grid position i lies in column i % 7 counted from Sunday. */
  lemma GridDateWeekday(year: int, month: int, i: nat)
    requires StrptimeAccepts(year, month)
    ensures SundayFirstWeekday(GridDate(year, month, i)) == i % 7
  {
    GridDateOrdinal(year, month, i);
    GridStartsOnSunday(year, month);
    WeekdayAfterWeeks(GridDate(year, month, i), GridStart(year, month), i);
  }

  /** A date i days after a Sunday-aligned ordinal s falls in column i % 7. */
  lemma WeekdayAfterWeeks(g: Date, s: int, i: nat)
    requires 1 <= g.month <= 12 && s % 7 == 0 && Ordinal(g) == s + i
    ensures SundayFirstWeekday(g) == i % 7
  {
    ShiftByWeeks(s, i);
  }

  /** Grid position i holds fromordinal(top-left ordinal + i). */
  lemma GridDateFromOrdinal(year: int, month: int, i: nat)
    requires StrptimeAccepts(year, month)
    ensures GridDate(year, month, i) == FromOrdinal(GridStart(year, month) + i)
  {
    TopLeftOrdinal(year, month);
    DaysAfterFromOrdinal(TopLeft(year, month), GridStart(year, month), i);
  }

  /** i one-day steps from the date with ordinal s reach fromordinal(s + i). */
  lemma DaysAfterFromOrdinal(t: Date, s: int, i: nat)
    requires Valid(t) && t.year >= 1 && Ordinal(t) == s
    ensures DaysAfter(t, i) == FromOrdinal(s + i)
  {
    DaysAfterOrdinal(t, i);
  }

  lemma ShiftByWeeks(s: int, i: int)
    requires s % 7 == 0
    ensures (s + i) % 7 == i % 7
  {
    var q := s / 7;
    assert s == 7 * q;
  }

  /** The 1st of the month after (year, month) is DaysInMonth days after its 1st. */
  lemma MonthLength(year: int, month: int)
    requires 1 <= month <= 12
    ensures var (y, m) := MonthAfter(year, month);
      1 <= m <= 12 && Ordinal(Date(y, m, 1)) == Ordinal(Date(year, month, 1)) + DaysInMonth(year, month)
  {
    NextDayOrdinal(Date(year, month, DaysInMonth(year, month)));
  }

  /** MonthAfter and MonthBefore undo each other. */
  lemma MonthAfterBefore(year: int, month: int)
    requires 1 <= month <= 12
    ensures MonthAfter(MonthBefore(year, month).0, MonthBefore(year, month).1) == (year, month)
    ensures MonthBefore(MonthAfter(year, month).0, MonthAfter(year, month).1) == (year, month)
  {
  }

  /** Days of one month have consecutive ordinals from its 1st. */
  lemma DayOfMonth(d: Date)
    requires Valid(d)
    ensures Ordinal(d) == Ordinal(Date(d.year, d.month, 1)) + d.day - 1
  {
  }

  /** A valid date whose ordinal is the grid's start plus i sits in grid position i. */
  lemma GridDateIs(year: int, month: int, i: nat, target: Date)
    requires StrptimeAccepts(year, month) && Valid(target) && target.year >= 1
    requires Ordinal(target) == GridStart(year, month) + i
    ensures GridDate(year, month, i) == target
  {
    GridDateOrdinal(year, month, i);
    OrdinalInjective(GridDate(year, month, i), target);
  }

  /** The leading cells hold the last days of the month before. */
  lemma LeadingCell(year: int, month: int, i: int)
    requires StrptimeAccepts(year, month) && 0 <= i < LeadingDays(year, month)
    ensures var (py, pm) := MonthBefore(year, month);
      GridDate(year, month, i) == Date(py, pm, DaysInMonth(py, pm) - LeadingDays(year, month) + i + 1)
  {
    var (py, pm) := MonthBefore(year, month);
    var length, lead := DaysInMonth(py, pm), LeadingDays(year, month);
    var target := Date(py, pm, length - lead + i + 1);
    var first, before := Ordinal(Date(year, month, 1)), Ordinal(Date(py, pm, 1));
    MonthLength(py, pm);
    MonthAfterBefore(year, month);
    assert first == before + length;
    DayOfMonth(target);
    assert Ordinal(target) == before + length - lead + i;
    assert GridStart(year, month) == first - lead;
    GridDateIs(year, month, i, target);
  }

  /** The requested month's days follow in order. */
  lemma MonthCell(year: int, month: int, i: int)
    requires StrptimeAccepts(year, month)
    requires LeadingDays(year, month) <= i < LeadingDays(year, month) + DaysInMonth(year, month)
    ensures GridDate(year, month, i) == Date(year, month, i - LeadingDays(year, month) + 1)
  {
    var lead := LeadingDays(year, month);
    var target := Date(year, month, i - lead + 1);
    var first := Ordinal(Date(year, month, 1));
    DayOfMonth(target);
    assert Ordinal(target) == first + i - lead;
    assert GridStart(year, month) == first - lead;
    GridDateIs(year, month, i, target);
  }

  /** The trailing cells hold the first days of the month after. */
  lemma TrailingCell(year: int, month: int, i: int)
    requires StrptimeAccepts(year, month) && 0 <= i < CellCount
    requires LeadingDays(year, month) + DaysInMonth(year, month) <= i
    ensures var (ny, nm) := MonthAfter(year, month);
      GridDate(year, month, i) == Date(ny, nm, i - LeadingDays(year, month) - DaysInMonth(year, month) + 1)
  {
    var (ny, nm) := MonthAfter(year, month);
    var length, lead := DaysInMonth(year, month), LeadingDays(year, month);
    var target := Date(ny, nm, i - lead - length + 1);
    var first, after := Ordinal(Date(year, month, 1)), Ordinal(Date(ny, nm, 1));
    MonthLength(year, month);
    assert after == first + length;
    assert Valid(target) by {
      assert i - lead - length + 1 <= 42 - 28 <= DaysInMonth(ny, nm);
    }
    DayOfMonth(target);
    assert Ordinal(target) == after + i - lead - length;
    assert GridStart(year, month) == first - lead;
    GridDateIs(year, month, i, target);
  }

  /**
   * The grid's layout: the last days of the month before, then every day of the
   * requested month in order, then the first days of the month after.
   */
  lemma GridLayout(year: int, month: int, i: int)
    requires StrptimeAccepts(year, month) && 0 <= i < CellCount
    ensures var d, n := LeadingDays(year, month), DaysInMonth(year, month);
      var (py, pm) := MonthBefore(year, month);
      var (ny, nm) := MonthAfter(year, month);
      GridDate(year, month, i) ==
        if i < d then Date(py, pm, DaysInMonth(py, pm) - d + i + 1)
        else if i < d + n then Date(year, month, i - d + 1)
        else Date(ny, nm, i - d - n + 1)
  {
    var d, n := LeadingDays(year, month), DaysInMonth(year, month);
    if i < d {
      LeadingCell(year, month, i);
    } else if i < d + n {
      MonthCell(year, month, i);
    } else {
      TrailingCell(year, month, i);
    }
  }

  /**
   * A cell is flagged as in the requested month exactly when it lies in the
   * month's run of positions, and it then shows that position's day number;
   * the cells outside carry the month number before or after.
   */
  lemma CellsOfRequestedMonth(year: int, month: int, firstId: CellId, i: int)
    requires StrptimeAccepts(year, month) && 0 <= i < CellCount
    ensures var c, d := Grid(year, month, firstId)[i], LeadingDays(year, month);
      && c.id == firstId + i && c.day == i % Cols
      && (c.isNowMonth <==> d <= i < d + DaysInMonth(year, month))
      && (c.isNowMonth <==> c.month == month)
      && (c.isNowMonth ==> c.date == i - d + 1)
      && (i < d ==> c.month == MonthBefore(year, month).1)
      && (i >= d + DaysInMonth(year, month) ==> c.month == MonthAfter(year, month).1)
  {
    CellsIndex(TopLeft(year, month), month, firstId, CellCount, i);
    GridLayout(year, month, i);
  }

  /**
   * The cell at the leading-day count shows "1", and the two cells around the
   * grid's centre (positions 20 and 21) always belong to the requested month.
   */
  lemma FirstAndCentreCells(year: int, month: int, firstId: CellId)
    requires StrptimeAccepts(year, month)
    ensures var cells, d := Grid(year, month, firstId), LeadingDays(year, month);
      && cells[d].isNowMonth && cells[d].date == 1 && CellText(cells[d]) == "1"
      && cells[20].isNowMonth && cells[20].month == month
      && cells[21].isNowMonth && cells[21].month == month
  {
    var d := LeadingDays(year, month);
    CellsOfRequestedMonth(year, month, firstId, d);
    CellsOfRequestedMonth(year, month, firstId, 20);
    CellsOfRequestedMonth(year, month, firstId, 21);
  }

  /** 2024-03-01 is day 738946, a Friday, so five February days lead its grid. */
  lemma March2024Starts()
    ensures Ordinal(Date(2024, 3, 1)) == 738946 && LeadingDays(2024, 3) == 5
  {
    OrdinalFormula(Date(2024, 3, 1));
    assert DaysBeforeYear(2024) == 738885 by {
      assert 2023 / 4 == 505 && 2023 / 100 == 20 && 2023 / 400 == 5;
    }
  }

  /**
   * March 2024, with cells numbered from any firstId: five February days lead,
   * position 21 is the 17th and the top-left cell is 2/25. The year is a
   * parameter fixed by the requires, rather than the literal 2024, so that the
   * solver does not unroll the recursive date functions on a literal year.
   */
  lemma March2024(year: int, firstId: CellId)
    requires year == 2024
    ensures LeadingDays(year, 3) == 5
    ensures Grid(year, 3, firstId)[5].date == 1 && Grid(year, 3, firstId)[21].date == 17
    ensures Grid(year, 3, firstId)[0] == Cell(firstId, 0, 25, 2, false)
  {
    March2024Starts();
    CellsOfRequestedMonth(year, 3, firstId, 5);
    CellsOfRequestedMonth(year, 3, firstId, 21);
    March2024TopLeft(year, firstId);
  }

  /**
   * The top-left cell of March 2024 is February 25 (2024 is a leap year). The
   * year is a parameter, as in March2024, so that the solver does not unroll
   * the recursive date functions on a literal year.
   */
  lemma March2024TopLeft(year: int, firstId: CellId)
    requires year == 2024
    ensures Grid(year, 3, firstId)[0] == Cell(firstId, 0, 25, 2, false)
  {
    March2024Starts();
    assert DaysInMonth(year, 2) == 29 by {
      assert IsLeap(year);
    }
    GridLayout(year, 3, 0);
    var first := DaysAfter(TopLeft(year, 3), 0);
    assert first == Date(year, 2, 25);
    CellsIndex(TopLeft(year, 3), 3, firstId, CellCount, 0);
  }

  /** Grid position i holds 9999-12-31 exactly when its ordinal is the largest one. */
  lemma LastDateInGrid(year: int, month: int, i: nat)
    requires StrptimeAccepts(year, month)
    ensures GridDate(year, month, i) == LastDate <==> GridStart(year, month) + i == MaxOrdinal
  {
    GridDateOrdinal(year, month, i);
    IsLastDate(GridDate(year, month, i));
  }

  /**
   * Only December 9999 overflows among the months strptime accepts, and then
   * the cells run up to 9999-12-31.
   */
  lemma OverflowOnlyInDecember9999(year: int, month: int)
    requires StrptimeAccepts(year, month)
    ensures Overflows(year, month) <==> year == 9999 && month == 12
    ensures Overflows(year, month) ==> CellsPlaced(year, month) == 31 + LeadingDays(year, month)
  {
    var k := LastDateIndex(TopLeft(year, month), CellCount);
    var s := GridStart(year, month);
    LastDayOrdinal();
    LastDateInGrid(year, month, k);
    if year == 9999 && month == 12 {
      var j := 30 + LeadingDays(year, month);
      assert s + j == MaxOrdinal;
      LastDateInGrid(year, month, j);
      if j < k {
        LastDateIndexFirst(TopLeft(year, month), CellCount, j);
      }
    } else {
      // The grid ends at most 41 days after the 1st, short of 9999-12-31.
      if year == 9999 {
        DaysBeforeMonthMonotone(year, month, 12);
      } else {
        YearStartMonotone(year, 9999);
        MonthWithinYear(year, month);
      }
      assert s + k < MaxOrdinal;
    }
  }

  /** An overflowing grid stops after the leading days and the 31 days of December. */
  lemma OverflowPlacesLastMonth(year: int, month: int)
    requires StrptimeAccepts(year, month) && Overflows(year, month)
    ensures CellsPlaced(year, month) == 31 + LeadingDays(year, month)
  {
    OverflowOnlyInDecember9999(year, month);
  }
}
