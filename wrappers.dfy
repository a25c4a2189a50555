/** Failure-compatible wrappers: a Java null, a thrown exception and a normal return become values. */
module Wrappers {

  /** A value that may be absent (a Java `null` or an empty `Optional`). */
  datatype Option<+T> = None | Some(value: T)

  /** A returned value, or the exception that the Java method throws instead. */
  datatype Result<+T, +E> = Success(value: T) | Failure(error: E)

  /** The outcome of a Java `void` method: it returns, or it throws. */
  datatype Outcome<+E> = Pass | Fail(error: E)
}
