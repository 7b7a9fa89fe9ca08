/** Optional values and success-or-error results shared by the rest of the model. */
module Wrappers {

  datatype Option<+T> = None | Some(value: T)

  /** The outcome of an operation that can fail: a value or an error. */
  datatype Result<+R, +E> = Success(value: R) | Failure(error: E)
}
