/** Failure-compatible wrappers: `Option` for the source's optional values
    (`undefined`) and `Result` for a value-or-thrown-error outcome. */
module Wrappers {

  datatype Option<+T> = None | Some(value: T)

  datatype Result<+R, +E> = Success(value: R) | Failure(error: E)
}
