/** Optional values and call results. */
module Wrappers {

  /** A value that may be absent; stands for a possibly-null shared pointer. */
  datatype Option<+T> = None | Some(value: T)

  /** Either a successful value or the error a call raised. */
  datatype Result<+R, +E> = Success(value: R) | Failure(error: E)
}
