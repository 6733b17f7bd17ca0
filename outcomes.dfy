/** Failure-carrying values standing for Go's `(value, error)` returns. */
module Outcomes {

  /** An optional value, standing for a parse that may fail. */
  datatype Option<+T> = None | Some(value: T)

  /** A value or the text of a Go `error`. */
  datatype Result<+T> = Ok(value: T) | Err(error: string)

  /** A Go `error` return: nil (`Pass`) or an error with its text. */
  datatype Outcome = Pass | Fail(error: string)
}
