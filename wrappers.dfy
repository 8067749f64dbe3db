/** Presence and failure wrappers shared by the notation conversion model. */
module Wrappers {

  /** A Java reference that may be null, or a lookup that may come back empty. */
  datatype Option<+T> = None | Some(value: T)

  /** The outcome of a check that either passes or fails with an error value. */
  datatype Outcome<+E> = Pass | Fail(error: E)

  /** A conversion that either produces a value or fails with an error value. */
  datatype Result<+T, +E> = Success(value: T) | Failure(error: E)
}
