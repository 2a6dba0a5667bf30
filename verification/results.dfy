/** An optional value and a success-or-error result, used across the model. */
module Results {

  /** A value that may be absent: a nullable column or an optional request field. */
  datatype Option<+T> = None | Some(value: T)

  /** The outcome of a handler: its response, or the error it raises. */
  datatype Result<+T, +E> = Success(value: T) | Failure(error: E)
}
