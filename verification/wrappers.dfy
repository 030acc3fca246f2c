/** Option and Result, used for Go's `nil` interface values and for error returns. */
module Wrappers {

  /** A value that may be absent. In the hash map, `None` is Go's `nil` interface value. */
  datatype Option<+T> = None | Some(value: T)

  /** Either a value or an error, for Go functions that return `(T, error)` or panic. */
  datatype Result<+T, +E> = Success(value: T) | Failure(error: E)
}
