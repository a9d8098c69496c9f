/** Failure-carrying result types used by every layer of the model. */
module Wrappers {

  /** A value that may be absent: a C# `T?` reference that may be null. */
  datatype Option<+T> = None | Some(value: T)

  /** A value or the exception that replaced it. */
  datatype Result<+T, +E> = Success(value: T) | Failure(error: E)

  /** A `Task` without a value: it either completes or throws. */
  datatype Outcome<+E> = Pass | Fail(error: E)
}
