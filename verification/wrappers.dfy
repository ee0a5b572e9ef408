/** Failure-compatible wrappers used throughout the model: `Option` stands for
    a Java reference that may be null, `Result` for a call that either returns
    a value or throws. */
module Wrappers {

  /** A value that may be absent (a nullable Java reference). */
  datatype Option<+T> = None | Some(value: T)

  /** The outcome of a call that returns a value or raises an error. */
  datatype Result<+R, +E> = Success(value: R) | Failure(error: E)
}
