/** Option and Result: the model's stand-ins for Python's None and for a raised exception. */
module Wrappers {

  /** A value that may be absent, as a Python argument that may be None. */
  datatype Option<+T> = None | Some(value: T)

  /** Either a normal return value or the exception the operation raises. */
  datatype Result<+T, +E> = Success(value: T) | Failure(error: E)
}
