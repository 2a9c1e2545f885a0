/** Option and Result values used by the task store for absent data and for
    the errors that `add_task` raises. */
module Wrappers {

  datatype Option<+T> = None | Some(value: T)

  /** The outcome of an operation that either produces a value or fails
      with one of a fixed set of errors. */
  datatype Result<+T, +E> = Ok(value: T) | Err(error: E)
}
