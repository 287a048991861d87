/** Failure-carrying return values: Go's `(value, error)` pairs and nil-able results. */
module Results {

  /** A value that may be absent, as a nil result or a failed parse in Go. */
  datatype Option<+T> = None | Some(value: T)

  /** Either a value or an error, as a Go function returning `(T, error)`. */
  datatype Result<+T, +E> = Success(value: T) | Failure(error: E)
}
