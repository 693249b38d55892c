/** Failure-carrying datatypes shared by the rest of the model. */
module Wrappers {

  /** A value that may be missing: the outcome of a lookup or of decoding. */
  datatype Option<+T> = None | Some(value: T)

  /** A success value or an error value: the outcome of a request handler. */
  datatype Result<+R, +E> = Success(value: R) | Failure(error: E)
}
