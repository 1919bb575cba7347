/** Optional values, results and the Python exceptions the calendar widget can raise. */
module Failures {

  datatype Option<+T> = None | Some(value: T)

  /** The exceptions that escape the widget's operations. */
  datatype Error =
    | ValueError      // datetime.strptime rejects the year or month
    | OverflowError   // a date step leaves datetime's range (past 9999-12-31)
    | IndexError      // a month-name list too short, or fewer than 22 cells in the grid
    | TypeError       // a month format that is neither a str nor a list
    | AttributeError  // reading pressed_background_before before it was ever assigned

  datatype Result<+T> = Ok(value: T) | Err(error: Error)

  /** The new state of an operation together with the exception it raised, if any. */
  datatype Outcome<+S> = Outcome(state: S, error: Option<Error>)
}
