/** Failure-compatible wrappers used in place of Java's `null` returns and exceptions. */
module Wrappers {

  /** A value that may be absent; `None` stands for a Java `null` result. */
  datatype Option<+T> = None | Some(value: T)

  /** Either a success value or the reason an operation was rejected. */
  datatype Result<+T, +E> = Success(value: T) | Failure(error: E)
}
