/** Option and Result values, used where the Python code returns None or raises. */
module Wrappers {

  datatype Option<+T> = None | Some(value: T)

  /** `Failure` stands for an exception raised by the Python code. */
  datatype Result<+T, +E> = Success(value: T) | Failure(error: E)
}
