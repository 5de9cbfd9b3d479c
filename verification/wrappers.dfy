/** Failure-compatible wrappers used for the source's `null` results and its
    one run-time exception. */
module Wrappers {

  /** A value or nothing: the model of a C# reference that may be `null`. */
  datatype Option<+T> = None | Some(value: T)

  /** A value or an error: the model of a computation that may throw. */
  datatype Result<+R, +E> = Success(value: R) | Failure(error: E)
}
