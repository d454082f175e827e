/** Optional values and the Python exceptions that end a call of the log parser. */
module Wrappers {

  datatype Option<+T> = None | Some(value: T)

  /** The built-in exceptions the modelled code can raise. None of them is caught,
      so each one ends the whole call. */
  datatype Exception =
    | IndexError   // a field or list index past the end
    | ValueError   // int(), float() or strptime() given a string it cannot read
    | TypeError    // indexing the None that start_end_dt_from_now falls through to
    | IOError      // opening a log file that is not in the download directory
    | OverflowError // datetime arithmetic that leaves the years 1 to 9999

  datatype Result<+T> = Ok(value: T) | Err(error: Exception)
}
