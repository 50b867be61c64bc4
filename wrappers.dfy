/** Failure-carrying results, standing in for raised exceptions. */
module Wrappers {

  datatype Option<+T> = None | Some(value: T)

  /** A computation that either yields a value or raises an error. */
  datatype Result<+T, +E> = Success(value: T) | Failure(error: E)

  /** A check that yields nothing on success, or raises an error. */
  datatype Outcome<+E> = Pass | Fail(error: E)
}
