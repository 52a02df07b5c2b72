/** Small result types shared by the model. */
module Common {

  /** A value that may be missing: a database lookup that found no row, a payload the schema refused. */
  datatype Option<+T> = None | Some(value: T)

  /** The outcome of an operation that can fail with an error of type E. */
  datatype Result<+T, +E> = Success(value: T) | Failure(error: E)
}
