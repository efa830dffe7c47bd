/** Failure-carrying values used in place of the thrown strings of the library. */
module Wrappers {

  datatype Option<+T> = None | Some(value: T)

  /** A computation that either produced a value or failed with an error. */
  datatype Result<+R, +E> = Success(value: R) | Failure(error: E)

  /** A check that either passed or failed with an error (a validation that throws or returns nothing). */
  datatype Outcome<+E> = Pass | Fail(error: E)
}
