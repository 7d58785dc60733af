/** Failure-carrying result types shared by the rest of the model. */
module Wrappers {

  /** A value that may be absent: a Python `None` or a failed parse. */
  datatype Option<+T> = None | Some(value: T)

  /** The outcome of an operation that can abort with an error. */
  datatype Result<+T, +E> = Success(value: T) | Failure(error: E)
}
