/** Failure-compatible result types used by the rest of the model. */
module Wrappers {

  /** An optional value (Rust's `Option<T>`). */
  datatype Option<+T> = None | Some(value: T)

  /** A value or an error (Rust's `Result<T, E>`). */
  datatype Result<+T, +E> = Ok(value: T) | Err(error: E)
}
