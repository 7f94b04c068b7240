/** Option and Result types used to model Java's null values and exceptions. */
module Wrappers {

  datatype Option<+T> = None | Some(value: T)

  /** The outcome of an operation that may throw: a value or the exception it raises. */
  datatype Result<+R, +E> = Success(value: R) | Failure(error: E)
}
