/** Option and Result, the two failure-carrying shapes used throughout the model. */
module Wrappers {

  datatype Option<+T> = None | Some(value: T)

  /** `Result<T, E>` of Rust: the `?` operator propagates `Err`. */
  datatype Result<+T, +E> = Ok(value: T) | Err(error: E)
}
