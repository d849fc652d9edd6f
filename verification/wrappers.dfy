/** Failure-compatible wrappers used across the relay model. */
module Wrappers {

  /** A reference that may be `null` in the Java code. */
  datatype Option<+T> = None | Some(value: T)

  /** The outcome of an operation that the Java code ends with an exception. */
  datatype Result<+R, +E> = Success(value: R) | Failure(error: E) {
    predicate IsFailure() {
      Failure?
    }
  }
}
