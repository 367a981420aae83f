/** Rust's `Option`, and `Result` for the `Result<T, String>` the commands
    return. */
module Wrappers {

  datatype Option<+T> = None | Some(value: T)

  datatype Result<+T, +E> = Success(value: T) | Failure(error: E)
}
