/** Option, Result and Outcome, the failure-carrying values the model uses for
    Rust's `Option<T>`, `anyhow::Result<T>` and `anyhow::Result<()>`. */
module Wrappers {

  datatype Option<+T> = None | Some(value: T)

  /** The result of an operation that returns a value or the error it bailed with. */
  datatype Result<+T, +E> = Success(value: T) | Failure(error: E)

  /** The result of an operation that returns `Result<()>`: success, or the error it bailed with. */
  datatype Outcome<+E> = Pass | Fail(error: E)
}
