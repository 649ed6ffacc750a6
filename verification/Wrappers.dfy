/** Option and Result datatypes used by the crawler model. */
module Wrappers {

  /** A value that may be absent (a cell or an anchor the row does not have). */
  datatype Option<+T> = None | Some(value: T)

  /** The outcome of an operation that can raise. */
  datatype Result<+T, +E> = Success(value: T) | Failure(error: E)
}
