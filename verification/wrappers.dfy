/** Failure-carrying values shared by the puzzle modules. */
module Wrappers {

  /** A value that may be missing; Python's `None` is `None` here. */
  datatype Option<+T> = None | Some(value: T)

  /** The outcome of an operation that can raise an error instead of returning. */
  datatype Result<+R, +E> = Success(value: R) | Failure(error: E)
}
