/** Failure-carrying values used throughout the model in place of the
    exceptions the source raises (ValidationError, NoReverseMatch) and of
    Python's None. */
module Wrappers {

  datatype Option<+T> = None | Some(value: T)

  datatype Result<+R, +E> = Success(value: R) | Failure(error: E)

  /** A check that either passes or fails with an error (a `clean` method). */
  datatype Outcome<+E> = Pass | Fail(error: E)
}
