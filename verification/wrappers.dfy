/** Failure-compatible wrappers shared by every module of the model. */
module Wrappers {

  /** A value that may be absent; also stands for Go's nil slice where the source returns one. */
  datatype Option<+T> = None | Some(value: T)

  /** The `(value, error)` pair of a Go call, where only one side is meaningful. */
  datatype Result<+T, +E> = Ok(value: T) | Err(error: E)
}
