/** Option and Result: a Java reference that may be null, and a computation that may throw. */
module Wrappers {

  /** `None` stands for a Java `null`. */
  datatype Option<+T> = None | Some(value: T)

  /** The outcome of a Java expression: a value, or the exception it throws. */
  datatype Result<+R, +E> = Success(value: R) | Failure(error: E)
}
