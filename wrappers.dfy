/** Failure-carrying values used in place of Java's null results and exceptions. */
module Wrappers {

  /** A value that may be absent (Java's `null` or an empty `Optional`). */
  datatype Option<+T> = None | Some(value: T)

  /** A computed value, or the exception that was raised instead. */
  datatype Result<+T, +E> = Success(value: T) | Failure(error: E)

  /** A `void` call that either returns normally or raises an exception. */
  datatype Outcome<+E> = Pass | Fail(error: E)
}
