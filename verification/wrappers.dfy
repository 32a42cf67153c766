/** Failure-carrying values used throughout the model: an optional value, and
    a value-or-error result standing for Go's `(T, error)` return pairs. */
module Wrappers {

  /** A value that may be absent (a nil reference in Go, or a "not found" result). */
  datatype Option<+T> = None | Some(value: T)

  /** Either a computed value or the error the Go function would return with it. */
  datatype Result<+T, +E> = Success(value: T) | Failure(error: E)
}
