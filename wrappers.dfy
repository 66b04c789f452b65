/** Option and Result, the two shapes every lookup and every request handler returns. */
module Wrappers {

  /** A value that may be missing: a nullable column, a lookup that found nothing. */
  datatype Option<+T> = None | Some(value: T)

  /** The outcome of a request: a value, or the error response the handler sends instead. */
  datatype Result<+T, +E> = Success(value: T) | Failure(error: E)
}
