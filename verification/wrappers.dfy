/** Option and Result, the two failure-carrying shapes the shell's Rust code
    uses (`Option<T>` and `Result<T, E>`). */
module Wrappers {

  datatype Option<+T> = None | Some(value: T)

  datatype Result<+T, +E> = Success(value: T) | Failure(error: E)

  /** Rust's `Result<T, ()>`: an error that carries no information. */
  datatype Unit = Unit
}
