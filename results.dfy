/** Failure-carrying values for the error paths of the feature store. */
module Results {

  datatype Option<+T> = None | Some(value: T)

  /** A value, or the error the Python code would have raised instead. */
  datatype Result<+T, +E> = Success(value: T) | Failure(error: E)

  /** Success or the error raised by an operation that returns nothing. */
  datatype Outcome<+E> = Pass | Fail(error: E)
}
