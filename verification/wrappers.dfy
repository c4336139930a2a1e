/** Option and Result: Rust's `Option<T>` and `Result<T, E>` as Dafny datatypes. */
module Wrappers {

  datatype Option<+T> = None | Some(value: T)

  datatype Result<+T, +E> = Ok(value: T) | Err(error: E)

  /** The unit value `()` of a `Result<(), E>`. */
  datatype Unit = Unit
}
