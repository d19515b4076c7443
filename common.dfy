/** Failure-carrying results shared by every stage of the report pipeline. */
module Common {

  datatype Option<+T> = None | Some(value: T)

  /** One parsed CSV line: column name to field text (a Python `dict`). */
  type Row = map<string, string>

  /** The two kinds of failure the core raises: a field that does not convert
      to a number (Python's `ValueError` from `float()`), and a report name
      that the registry does not know. */
  datatype Error =
    | ConversionError(text: string)
    | UnknownReport(message: string)

  datatype Result<+T> = Ok(value: T) | Err(error: Error)
}
