/** Failure-carrying values shared by the rest of the model. */
module Results {

  /** A value that may be missing. */
  datatype Option<+T> = None | Some(value: T)

  /** Either the value an operation computed or the error it raised. */
  datatype Result<+T, +E> = Success(value: T) | Failure(error: E)
}
