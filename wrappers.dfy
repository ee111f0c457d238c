/** Failure-compatible wrappers used by the path finder model. */
module Wrappers {

  /** A value that may be absent (a Java reference that may be null). */
  datatype Option<T> = None | Some(value: T)

  /** The outcome of an operation that either succeeds or stops with an error. */
  datatype Result<T, E> = Success(value: T) | Failure(error: E)
}
