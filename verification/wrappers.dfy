/** Failure-carrying wrappers shared by every module of the model. */
module Wrappers {

  /** A value that may be absent; stands for Python's `None` returns. */
  datatype Option<+T> = None | Some(value: T)

  /** Either a successful value or an error, for the handlers' early returns. */
  datatype Result<+R, +E> = Success(value: R) | Failure(error: E)
}
