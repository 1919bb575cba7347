/** The title above the calendar: the month label with its format, and the year label. */
module MonthTitle {
  import opened Failures
  import opened Text
  import opened Colors

  /** The text that a month format has replaced by the month number. */
  const Placeholder := "${month}"

  /**
   * A month format as the caller passes it: a template str, a list of names
   * indexed by month - 1, or a value of any other type.
   */
  datatype MonthFormat = Template(text: string) | Names(names: seq<string>) | Unsupported

  /** The format CalendarWidget uses when none is given: "${month}月". */
  const DefaultFormat := Template(Placeholder + "月")

  /** Python truth of the argument: None, "" and [] are false; Unsupported stands for a true value. */
  predicate Truthy(format: Option<MonthFormat>) {
    match format
    case None => false
    case Some(Template(text)) => text != ""
    case Some(Names(names)) => names != []
    case Some(Unsupported) => true
  }

  /** list[index] with Python's negative indices; None where Python raises IndexError. */
  function PyIndex<T>(xs: seq<T>, index: int): (r: Option<T>)
    ensures r.Some? <==> -|xs| <= index < |xs|
    ensures 0 <= index < |xs| ==> r == Some(xs[index])
    ensures -|xs| <= index < 0 ==> r == Some(xs[|xs| + index])
  {
    if 0 <= index < |xs| then Some(xs[index])
    else if -|xs| <= index < 0 then Some(xs[|xs| + index])
    else None
  }

  /** TitleLabel.getFormattedMonth: the month label's text for the stored format. */
  function FormattedMonth(format: Option<MonthFormat>, month: int): (r: Result<string>)
    ensures format.None? || format.value.Template? ==> r.Ok?
    ensures r == Err(IndexError) <==> format.Some? && format.value.Names? && !(-|format.value.names| <= month - 1 < |format.value.names|)
    ensures r == Err(TypeError) <==> format == Some(Unsupported)
    ensures r.Err? ==> r.error == IndexError || r.error == TypeError
  {
    match format
    case None => Ok(IntToString(month))
    case Some(Template(text)) => Ok(ReplaceAll(text, Placeholder, IntToString(month)))
    case Some(Names(names)) =>
      (match PyIndex(names, month - 1)
       case Some(name) => Ok(ReplaceAll(name, Placeholder, IntToString(month)))
       case None => Err(IndexError))
    case Some(Unsupported) => Err(TypeError)
  }

  /** The state of a TitleLabel. */
  datatype Title = Title(
    format: Option<MonthFormat>,
    monthText: string,
    yearText: string,
    monthColor: Option<Color>,
    yearColor: Option<Color>)

  /** The title as the layout creates it: no format, and the layout's placeholder texts. */
  const InitialTitle := Title(None, "3月", "2021", None, None)

  /** TitleLabel.set_month: keep a truthy new format, then show the formatted month. */
  function SetMonthStep(title: Title, month: int, format: Option<MonthFormat>): (r: Outcome<Title>)
    ensures r.state.format == (if Truthy(format) then format else title.format)
    ensures r.state.yearText == title.yearText
    ensures r.state.monthColor == title.monthColor && r.state.yearColor == title.yearColor
    ensures r.error.None? <==> FormattedMonth(r.state.format, month).Ok?
    ensures r.error.None? ==> r.state.monthText == FormattedMonth(r.state.format, month).value
    ensures r.error.Some? ==> r.state.monthText == title.monthText
  {
    var t := if Truthy(format) then title.(format := format) else title;
    match FormattedMonth(t.format, month)
    case Ok(text) => Outcome(t.(monthText := text), None)
    case Err(e) => Outcome(t, Some(e))
  }

  // Properties of the month title.

  /** Without a stored format the label shows the bare number. */
  lemma NoFormatShowsNumber(month: int)
    ensures FormattedMonth(None, month) == Ok(IntToString(month))
    ensures ParseInt(FormattedMonth(None, month).value) == month
  {
    IntToStringRoundTrip(month);
  }

  /** Every placeholder of a template is replaced; none is left in the text. */
  lemma TemplateLeavesNoPlaceholder(text: string, month: int)
    ensures FormattedMonth(Some(Template(text)), month).Ok?
    ensures !Contains(FormattedMonth(Some(Template(text)), month).value, Placeholder)
  {
    var digits := IntToString(month);
    assert Disjoint(Placeholder, digits) by {
      forall i, j | 0 <= i < |Placeholder| && 0 <= j < |digits| ensures Placeholder[i] != digits[j] {
        assert IsDigit(digits[j]) || digits[j] == '-';
      }
    }
    ReplaceAllLeavesNone(text, Placeholder, digits);
  }

  /** The default format shows the number followed by 月. */
  lemma DefaultFormatText(month: int)
    ensures FormattedMonth(Some(DefaultFormat), month) == Ok(IntToString(month) + "月")
  {
    ReplaceLeading(Placeholder, "月", IntToString(month));
    assert !Contains("月", Placeholder);
    ReplaceAbsent("月", Placeholder, IntToString(month));
  }

  /**
   * A list format fails exactly when month - 1 is out of Python's index range;
   * otherwise it shows the selected entry with its placeholders replaced.
   */
  lemma NamesFailExactlyOutOfRange(names: seq<string>, month: int)
    ensures FormattedMonth(Some(Names(names)), month) == Err(IndexError)
        <==> !(-|names| <= month - 1 < |names|)
    ensures 1 <= month <= |names| ==>
      FormattedMonth(Some(Names(names)), month) == Ok(ReplaceAll(names[month - 1], Placeholder, IntToString(month)))
  {
  }

  /**
   * For the months 1..12 a list of at least 12 names never fails, longer lists
   * included; a shorter list fails for the months past its end; an entry without
   * the placeholder is shown verbatim.
   */
  lemma NamesForCalendarMonths(names: seq<string>, month: int)
    requires 1 <= month <= 12
    ensures FormattedMonth(Some(Names(names)), month).Err? <==> |names| < month
    ensures month <= |names| && !Contains(names[month - 1], Placeholder) ==>
      FormattedMonth(Some(Names(names)), month) == Ok(names[month - 1])
  {
    if month <= |names| && !Contains(names[month - 1], Placeholder) {
      ReplaceAbsent(names[month - 1], Placeholder, IntToString(month));
    }
  }

  /** A month 0 picks the LAST name (Python's index -1) instead of failing. */
  lemma MonthZeroPicksLastName(names: seq<string>)
    requires |names| > 0 && !Contains(names[|names| - 1], Placeholder)
    ensures FormattedMonth(Some(Names(names)), 0) == Ok(names[|names| - 1])
  {
    ReplaceAbsent(names[|names| - 1], Placeholder, IntToString(0));
  }

  /** A format of any other type fails with TypeError, whatever the month. */
  lemma UnsupportedFormatFails(month: int)
    ensures FormattedMonth(Some(Unsupported), month) == Err(TypeError)
  {
  }

  /** set_month keeps the stored format unless the new one is truthy. */
  lemma SetMonthKeepsFormatUnlessTruthy(title: Title, month: int, format: Option<MonthFormat>)
    ensures SetMonthStep(title, month, format).state.format == if Truthy(format) then format else title.format
    ensures SetMonthStep(title, month, format).state.yearText == title.yearText
    ensures SetMonthStep(title, month, format).error.None? <==> FormattedMonth(SetMonthStep(title, month, format).state.format, month).Ok?
  {
  }

  class TitleLabel {
    var format: Option<MonthFormat>
    var monthText: string
    var yearText: string
    var monthColor: Option<Color>
    var yearColor: Option<Color>

    function View(): Title
      reads this
    {
      Title(format, monthText, yearText, monthColor, yearColor)
    }

    constructor ()
      ensures View() == InitialTitle
    {
      format, monthText, yearText := None, "3月", "2021";
      monthColor, yearColor := None, None;
    }

    /** set_month */
    method SetMonth(month: int, newFormat: Option<MonthFormat>) returns (err: Option<Error>)
      modifies this
      ensures Outcome(View(), err) == SetMonthStep(old(View()), month, newFormat)
    {
      if Truthy(newFormat) {
        format := newFormat;
      }
      var text := FormattedMonth(format, month);
      if text.Err? {
        return Some(text.error);
      }
      monthText := text.value;
      err := None;
    }

    /** set_year: the label shows the string it is given. */
    method SetYear(year: string)
      modifies this
      ensures View() == old(View()).(yearText := year)
    {
      yearText := year;
    }

    /** load_style */
    method LoadStyle(monthColor': Color, yearColor': Color)
      modifies this
      ensures View() == old(View()).(monthColor := Some(monthColor'), yearColor := Some(yearColor'))
    {
      monthColor, yearColor := Some(monthColor'), Some(yearColor');
    }
  }
}
