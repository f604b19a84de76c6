/** Option, Result and Outcome: the failure-carrying values the model uses in place of
    Java's null, Optional and exceptions. */
module Wrappers {

  /** A possibly absent value: a Java reference that may be null, or an Optional. */
  datatype Option<+T> = None | Some(value: T)

  /** The value of a call that either returns normally or throws. */
  datatype Result<+R, +E> = Success(value: R) | Failure(error: E)

  /** The verdict of a check that either passes or fails with a reason. */
  datatype Outcome<+E> = Pass | Fail(error: E)
}
