/** Optional values and results of calls that can fail. */
module Wrappers {

  /** A value that may be absent (a nil pointer in the Go SDK's structs). */
  datatype Option<+T> = None | Some(value: T)

  /** The answer of a remote call: its value, or the error it reported. */
  datatype Result<+T, +E> = Success(value: T) | Failure(error: E)
}
