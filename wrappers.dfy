/** Failure-compatible wrappers used across the model: an optional value and
    a value-or-error result standing for Python's raised exceptions. */
module Wrappers {

  datatype Option<+T> = None | Some(value: T)

  datatype Result<+T, +E> = Ok(value: T) | Err(error: E)
}
