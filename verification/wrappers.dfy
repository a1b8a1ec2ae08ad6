/** Failure-compatible wrappers standing in for Java's `null` and for thrown exceptions. */
module Wrappers {

  /** `None` plays the role of a Java `null` reference. */
  datatype Option<+T> = None | Some(value: T)

  /** The outcome of a Java call that may throw. */
  datatype Result<+T, +E> = Success(value: T) | Failure(error: E)
}
