/** Option and Result datatypes used across the model in place of Python's
    `None` and raised exceptions. */
module Wrappers {

  datatype Option<+T> = None | Some(value: T)

  /** The outcome of an operation that may raise: either a value or the
      failure that the source would raise. */
  datatype Result<+T, +E> = Ok(value: T) | Err(error: E)
}
