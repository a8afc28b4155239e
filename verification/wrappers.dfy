/** Optional values and results with an error, as used by the record store. */
module Wrappers {

  /** Python's `None` or a value. */
  datatype Option<+T> = None | Some(value: T)

  /** The outcome of an operation that can fail with a user-visible error. */
  datatype Result<+R, +E> = Success(value: R) | Failure(error: E)
}
