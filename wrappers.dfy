/** Optional values and handler results. */
module Wrappers {

  datatype Option<+T> = None | Some(value: T)

  /** What a request handler answers: the record it returns, or the error it throws. */
  datatype Result<+T, +E> = Ok(value: T) | Err(error: E)
}
