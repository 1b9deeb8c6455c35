/** Go's `error` results, as values. */
module Results {

  /** An error value produced by a library call the handler does not look into. */
  datatype Error = Error(message: string)

  /** A Go `error` return: None stands for `nil`. */
  datatype Option<+T> = None | Some(value: T)

  /** A Go `(value, error)` pair in which exactly one side is meaningful. */
  datatype Result<+T> = Success(value: T) | Failure(error: Error)
}
