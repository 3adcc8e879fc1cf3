/** Failure-carrying values shared by every module: Python's `None` returns
    and raised exceptions become `Option` and `Result` values. */
module Wrappers {

  datatype Option<+T> = None | Some(value: T)

  datatype Result<+R, +E> = Ok(value: R) | Err(error: E)
}
