/** Failure-carrying values shared by the parsers. */
module Wrappers {

  /** An optional value: Rust's `Option`, and the outcome of parsing one token. */
  datatype Option<+T> = None | Some(value: T)

  /** A value or an error: Rust's `Result`, used where the source fails a whole load. */
  datatype Result<+T, +E> = Success(value: T) | Failure(error: E)
}
