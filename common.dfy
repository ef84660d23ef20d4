/** Shared value types: optional values, results with an error, and spreadsheet cells. */
module Common {

  /** A value that may be absent. */
  datatype Option<+T> = None | Some(value: T)

  /** The value an operation produces, or the error it raises instead. */
  datatype Result<+T, +E> = Ok(value: T) | Err(error: E)

  /** One cell of a loaded spreadsheet; `None` is a missing (NaN) cell. */
  type Cell = Option<string>
}
