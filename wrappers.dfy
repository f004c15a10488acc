/** Failure-carrying values that stand in for the exceptions the script raises. */
module Wrappers {

  datatype Option<+T> = None | Some(value: T)

  /** A computation that either produced a value or raised. */
  datatype Result<+T, +E> = Ok(value: T) | Err(error: E)

  /** A computation with no value of interest that either completed or raised. */
  datatype Outcome<+E> = Pass | Fail(error: E)
}
