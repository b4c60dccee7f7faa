/** Failure-carrying wrappers used across the model: an absent value and
    an operation that either succeeds or reports which error it raised. */
module Wrappers {

  datatype Option<+T> = None | Some(value: T)

  datatype Result<+R, +E> = Ok(value: R) | Err(error: E)
}
