/** Optional values and error returns, standing for Go's `(T, error)` pairs. */
module Wrappers {
  datatype Option<T> = None | Some(value: T)

  /** `Err` carries the message the Go code wraps into its error value. */
  datatype Result<T> = Ok(value: T) | Err(error: string)
}
