/** Failure-carrying wrappers used throughout the model: Python's `None` and
    raised exceptions become `Option` and `Result` values. */
module Wrappers {

  datatype Option<+T> = None | Some(value: T)

  datatype Result<+T, +E> = Ok(value: T) | Err(error: E)
}
