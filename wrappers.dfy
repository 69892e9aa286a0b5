/** The optional value that the source writes as a value or Python's None. */
module Wrappers {

  datatype Option<+T> = None | Some(value: T)

  /** The error or value that an operation which may fail returns. */
  datatype Result<+R, +E> = Success(value: R) | Failure(error: E)
}
