/** Failure-carrying results, used for the program's (value, ok) and (value, error) returns. */
module Wrappers {
  datatype Option<+T> = None | Some(value: T)

  datatype Result<+T, +E> = Ok(value: T) | Err(error: E)
}
