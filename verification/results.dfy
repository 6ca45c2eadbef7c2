/** Success/failure values for operations whose Python counterpart raises. */
module Results {

  /** The outcome of an operation that either produces a value or raises `error`. */
  datatype Result<+T, +E> = Ok(value: T) | Err(error: E)
}
