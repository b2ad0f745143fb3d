/** Option and Result types shared by the whole model. */
module Wrappers {

  datatype Option<+T> = None | Some(value: T)

  /** The outcome of an operation that can raise: its value, or the error it raises. */
  datatype Result<+T, +E> = Ok(value: T) | Err(error: E)
}
