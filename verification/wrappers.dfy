/** Failure-carrying result types shared by every module of the model. */
module Wrappers {

  /** An optional value (Rust's `Option`). */
  datatype Option<+T> = None | Some(value: T)

  /** A value or an error (Rust's `Result`). */
  datatype Result<+R, +E> = Success(value: R) | Failure(error: E)

  /** A result that carries no value on success (`Result<(), E>`). */
  datatype Outcome<+E> = Pass | Fail(error: E)
}
