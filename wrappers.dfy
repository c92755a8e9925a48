/** Option and Result types shared by every module of the model. */
module Wrappers {

  /** A value that may be absent (a missing request field, an unset date). */
  datatype Option<+T> = None | Some(value: T)

  /** The outcome of an operation: a value, or an error tag. */
  datatype Result<+T, +E> = Ok(value: T) | Err(error: E)
}
