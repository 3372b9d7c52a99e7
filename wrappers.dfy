/** The failure-carrying result type shared by the model. */
module Wrappers {

  /** The outcome of an operation that can fail with an error value. */
  datatype Result<+T, +E> = Ok(value: T) | Err(error: E)
}
