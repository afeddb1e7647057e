/** Failure-carrying values used across the model in place of thrown errors and `null`. */
module Results {

  /** A value that may be absent: `null`/`undefined` in the source. */
  datatype Option<+T> = None | Some(value: T)

  /** The outcome of an operation that either returns a value or fails with a tagged error. */
  datatype Result<+T, +E> = Ok(value: T) | Err(error: E)
}
