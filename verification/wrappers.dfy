/** Option and Result values standing in for the source's `null` returns and thrown errors. */
module Wrappers {

  /** A value that may be absent: the source's `null` / unset field. */
  datatype Option<+T> = None | Some(value: T)

  /** The outcome of an operation that may fail instead of returning. */
  datatype Result<+T, +E> = Success(value: T) | Failure(error: E)
}
