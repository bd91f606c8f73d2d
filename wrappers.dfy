/** Option and Result: the shapes the model uses for NULL returns and error paths. */
module Wrappers {

  /** A value that may be absent: the model's rendering of a C pointer that may be NULL. */
  datatype Option<+T> = None | Some(value: T)

  /** The outcome of a computation that can fail with an error of type E. */
  datatype Result<+T, +E> = Ok(value: T) | Err(error: E)
}
