/** Option and Result: the "not found" sentinel and the exceptions of the modelled code as values. */
module Wrappers {

  /** Python's `Optional[T]`: None, or a value. */
  datatype Option<+T> = None | Some(value: T)

  /** The outcome of a call that may raise: its value, or the exception it raises. */
  datatype Result<+R, +E> = Success(value: R) | Failure(error: E)
}
