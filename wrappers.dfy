/** Optional values and success/failure outcomes used throughout the model. */
module Wrappers {

  /** A value that may be missing: `dict.get` without a default, an I/O call that raised. */
  datatype Option<+T> = None | Some(value: T)

  /** The outcome of an operation that either returns a value or raises an error. */
  datatype Result<+R, +E> = Success(value: R) | Failure(error: E)
}
