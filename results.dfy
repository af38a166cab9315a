/** Success/failure and optional values shared by the modules of this model. */
module Results {

  /** The outcome of an operation of the script that may raise: a value, or the error it raises. */
  datatype Result<+T, +E> = Success(value: T) | Failure(error: E)

  datatype Option<+T> = None | Some(value: T)
}
