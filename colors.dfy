/**
 * Colours and the colour theme. A colour is an RGBA tuple that the widget only
 * stores and compares for equality; the theme's concrete values are not part of
 * this model.
 */
module Colors {

  datatype Color = Rgba(r: real, g: real, b: real, a: real)

  /** The colour roles of ColorTheme that the calendar reads. */
  datatype Theme = Theme(
    sunday: Color,
    saturday: Color,
    weekdays: Color,
    previousDaysBackground: Color,
    previousDaysColor: Color,
    nowDaysBackground: Color,
    nowDaysColor: Color,
    nextDaysBackground: Color,
    nextDaysColor: Color,
    headerBackground: Color,
    pressedBackground: Color,
    monthColor: Color,
    yearColor: Color,
    backgroundColor: Color)

  /** The foreground `color` and the `background_color` of one label. */
  datatype LabelStyle = LabelStyle(color: Color, background: Color)

  /**
   * DayTable.load_theme's choice for one cell: previous-days, now-days or
   * next-days colours, by comparing the month NUMBERS of the cell and of the
   * grid's centre cell.
   */
  function MonthPalette(cellMonth: int, centreMonth: int, theme: Theme): LabelStyle {
    if cellMonth < centreMonth then LabelStyle(theme.previousDaysColor, theme.previousDaysBackground)
    else if cellMonth == centreMonth then LabelStyle(theme.nowDaysColor, theme.nowDaysBackground)
    else LabelStyle(theme.nextDaysColor, theme.nextDaysBackground)
  }

  /** DateCell.set_color: the Sunday and Saturday columns override the offered colour. */
  function DayColor(day: int, theme: Theme, color: Color): Color {
    if day == 0 then theme.sunday
    else if day == 6 then theme.saturday
    else color
  }
}
