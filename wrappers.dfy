/** Optional values and results with an error, as used throughout the model. */
module Wrappers {

  /** A value that may be absent: a JavaScript `null`/`undefined` or a cached field not yet filled. */
  datatype Option<+T> = None | Some(value: T)

  /** The outcome of an operation that can throw. */
  datatype Result<+R, +E> = Success(value: R) | Failure(error: E)
}
