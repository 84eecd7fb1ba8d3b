/** Optional values and error-carrying results, for Go's `(value, error)` returns. */
module Outcomes {

  datatype Option<+T> = None | Some(value: T)

  datatype Result<+T, +E> = Ok(value: T) | Err(error: E)
}
