/** Option and Result types used for nullable columns and for the
    error paths of the HTTP handlers. */
module Wrappers {

  /** A nullable value: `None` stands for SQL NULL / Python `None`. */
  datatype Option<+T> = None | Some(value: T)

  /** The outcome of an operation that may fail with an error. */
  datatype Result<+R, +E> = Success(value: R) | Failure(error: E)
}
