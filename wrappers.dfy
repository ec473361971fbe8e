/** Failure-compatible wrappers used across the interpreter model. */
module Wrappers {
  datatype Option<T> = None | Some(value: T)

  /** The interpreter's `Result<T, String>`. */
  datatype Result<T> = Ok(value: T) | Err(msg: string)
}
