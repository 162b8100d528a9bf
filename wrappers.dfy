/** Failure-compatible wrappers used across the model: a missing value
    (a C# null) and a value-or-error (a C# exception thrown by an operation). */
module Wrappers {

  datatype Option<+T> = None | Some(value: T)

  datatype Result<+T, +E> = Ok(value: T) | Err(error: E)
}
