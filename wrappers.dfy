/** Absent-or-present values and success-or-error results shared by the other modules. */
module Wrappers {

  /** A value that may be missing: a form field that was not sent, a SQL NULL. */
  datatype Option<+T> = None | Some(value: T)

  /** The outcome of a database statement: a value, or the error SQLite reports. */
  datatype Result<+T, +E> = Ok(value: T) | Err(error: E)
}
