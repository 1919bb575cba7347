/** The row of seven weekday labels above the grid (DayHeader) and its style. */
module Header {
  import opened Failures
  import opened Colors

  /**
   * DayHeader's label texts: calendar.day_name (Monday first) with only the
   * first and the last entry exchanged.
   */
  function HeaderNames(dayNames: seq<string>): (names: seq<string>)
    requires |dayNames| == 7
    ensures |names| == 7
    ensures names[0] == dayNames[6] && names[6] == dayNames[0]
    ensures forall i :: 1 <= i < 6 ==> names[i] == dayNames[i]
  {
    dayNames[0 := dayNames[6]][6 := dayNames[0]]
  }

  /** The name day_name gives to the weekday shown in grid column `column` (Sunday = 0). */
  function ColumnDayName(dayNames: seq<string>, column: int): string
    requires |dayNames| == 7 && 0 <= column < 7
  {
    dayNames[(column + 6) % 7]
  }

  predicate Distinct(names: seq<string>) {
    forall i, j :: 0 <= i < j < |names| ==> names[i] != names[j]
  }

  /**
   * With distinct day names, a header label names the weekday of the grid column
   * beneath it only in column 0: the exchange puts Sunday first but leaves the
   * other six labels one column off.
   */
  lemma HeaderMatchesColumnOnlyAtSunday(dayNames: seq<string>, column: int)
    requires |dayNames| == 7 && Distinct(dayNames) && 0 <= column < 7
    ensures HeaderNames(dayNames)[column] == ColumnDayName(dayNames, column) <==> column == 0
  {
    var names := HeaderNames(dayNames);
    if column == 6 {
      assert names[6] == dayNames[0] && ColumnDayName(dayNames, 6) == dayNames[5];
    } else if column > 0 {
      assert names[column] == dayNames[column] && ColumnDayName(dayNames, column) == dayNames[column - 1];
    }
  }

  /** The header under the English locale: Sunday, Tuesday, ..., Saturday, Monday. */
  lemma EnglishHeader()
    ensures HeaderNames(["Monday", "Tuesday", "Wednesday", "Thursday", "Friday", "Saturday", "Sunday"])
         == ["Sunday", "Tuesday", "Wednesday", "Thursday", "Friday", "Saturday", "Monday"]
  {
  }

  /** Exchanging twice restores day_name. */
  lemma HeaderNamesInvolution(dayNames: seq<string>)
    requires |dayNames| == 7
    ensures HeaderNames(HeaderNames(dayNames)) == dayNames
  {
  }

  /** The header style CalendarWidget.load_theme builds: one entry per column. */
  function HeaderStyle(theme: Theme): (style: seq<LabelStyle>)
    ensures |style| == 7
    ensures forall i :: 0 <= i < 7 ==> style[i].background == theme.headerBackground
    ensures style[0].color == theme.sunday && style[6].color == theme.saturday
    ensures forall i :: 1 <= i < 6 ==> style[i].color == theme.weekdays
  {
    [LabelStyle(theme.sunday, theme.headerBackground)]
      + seq(5, _ => LabelStyle(theme.weekdays, theme.headerBackground))
      + [LabelStyle(theme.saturday, theme.headerBackground)]
  }

  /** Each header column has the foreground a current-month cell of that column gets. */
  lemma HeaderMatchesCellForeground(theme: Theme, column: int)
    requires 0 <= column < 7
    ensures HeaderStyle(theme)[column].color == DayColor(column, theme, theme.weekdays)
  {
  }

  /**
   * DayHeader.load_style: zip(labels, style) applies entry i to label i; extra
   * entries and extra labels are left alone. None is a label still in its
   * toolkit default style.
   */
  function ZipStyle(labels: seq<Option<LabelStyle>>, style: seq<LabelStyle>): (r: seq<Option<LabelStyle>>)
    ensures |r| == |labels|
    ensures forall i :: 0 <= i < |labels| && i < |style| ==> r[i] == Some(style[i])
    ensures forall i :: |style| <= i < |labels| ==> r[i] == labels[i]
  {
    seq(|labels|, i requires 0 <= i < |labels| => if i < |style| then Some(style[i]) else labels[i])
  }

  /** Entries beyond the number of labels change nothing. */
  lemma ZipStyleIgnoresExtraEntries(labels: seq<Option<LabelStyle>>, style: seq<LabelStyle>)
    requires |style| >= |labels|
    ensures ZipStyle(labels, style) == ZipStyle(labels, style[..|labels|])
    ensures forall i :: 0 <= i < |labels| ==> ZipStyle(labels, style)[i] == Some(style[i])
  {
  }

  /** A full header style styles every label, whatever the labels had before. */
  lemma HeaderStyleCoversAllLabels(labels: seq<Option<LabelStyle>>, theme: Theme)
    requires |labels| == 7
    ensures ZipStyle(labels, HeaderStyle(theme)) == seq(7, i requires 0 <= i < 7 => Some(HeaderStyle(theme)[i]))
  {
  }

  class DayHeader {
    const names: seq<string>
    var styles: seq<Option<LabelStyle>>

    constructor (dayNames: seq<string>)
      requires |dayNames| == 7
      ensures names == HeaderNames(dayNames)
      ensures styles == seq(7, _ => None)
    {
      names := HeaderNames(dayNames);
      styles := seq(7, _ => None);
    }

    method LoadStyle(style: seq<LabelStyle>)
      modifies this
      ensures styles == ZipStyle(old(styles), style)
    {
      var i := 0;
      while i < |styles| && i < |style|
        invariant 0 <= i <= |styles| == |old(styles)|
        invariant i <= |style|
        invariant forall k :: 0 <= k < |styles| ==>
          styles[k] == if k < i then Some(style[k]) else old(styles)[k]
      {
        styles := styles[i := Some(style[i])];
        i := i + 1;
      }
    }
  }
}
