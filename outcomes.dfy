/** Option and Result, the two wrapper types the model needs. */
module Outcomes {

  /** Rust's `Option<T>`. */
  datatype Option<+T> = None | Some(value: T)

  /** A computation that either yields a value or fails with an error. */
  datatype Result<+T, +E> = Ok(value: T) | Err(error: E)
}
