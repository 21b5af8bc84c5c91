/** Optional and fallible values. */
module Wrappers {

  /** A value that may be absent, as a nil pointer or a nil error is in Go. */
  datatype Option<+T> = None | Some(value: T)

  /** A value or the error that prevented it. */
  datatype Result<+T, +E> = Success(value: T) | Failure(error: E)
}
