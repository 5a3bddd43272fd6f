/** Option and Result: Ruby's `nil` and raised exceptions, made explicit. */
module Wrappers {

  /** A value that may be absent (`nil` in the modelled program). */
  datatype Option<+T> = None | Some(value: T)

  /** Either the value an operation returns or the error it raises. */
  datatype Result<+T, +E> = Success(value: T) | Failure(error: E)
}
