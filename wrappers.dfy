/** Absent values and failing operations, in place of Java's null and exceptions. */
module Wrappers {

  /** A value that may be absent: `None` stands for a Java `null` reference. */
  datatype Option<+T> = None | Some(value: T)

  /** The outcome of an operation that either yields a value or throws. */
  datatype Result<+T, +E> = Success(value: T) | Failure(error: E)
}
