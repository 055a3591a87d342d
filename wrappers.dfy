/** Failure-compatible result type shared by the isometry and Lie algebra modules. */
module Wrappers {

  /** Either a value or the exception the source raises instead. */
  datatype Result<+T, +E> = Success(value: T) | Failure(error: E)

  datatype Option<+T> = None | Some(value: T)
}
