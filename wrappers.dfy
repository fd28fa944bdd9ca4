/** Wrappers used for the source's null references and
    thrown exceptions. */
module Wrappers {

  /** A value that may be absent (a nullable reference or `T?`). */
  datatype Option<+T> = None | Some(value: T)

  /** The outcome of an operation that either returns a value or throws. */
  datatype Result<+R, +E> = Success(value: R) | Failure(error: E)
}
