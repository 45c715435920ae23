/** Failure-carrying values shared by every module of the model. */
module Wrappers {

  /** An optional value: the model's stand-in for Rust's `Option`. */
  datatype Option<+T> = None | Some(value: T)

  /** A value or an error: the model's stand-in for Rust's `Result`. */
  datatype Result<+T, +E> = Ok(value: T) | Err(error: E)
}
