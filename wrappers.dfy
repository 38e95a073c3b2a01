/** Option, Result and Outcome: the values the model uses in place of
    Rust's `Option`, of `unwrap`/`expect`, and of `panic!`. */
module Wrappers {

  datatype Option<+T> = None | Some(value: T)

  datatype Result<+T, +E> = Ok(value: T) | Err(error: E)

  /** The outcome of an operation that changes state and may fail. */
  datatype Outcome<+E> = Pass | Fail(error: E)
}
