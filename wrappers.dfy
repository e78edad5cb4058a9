/** Option and Result, as Rust's `Option<T>` and `Result<T, E>`. */
module Wrappers {

  datatype Option<+T> = None | Some(value: T) {
    /** Rust's `unwrap_or`. */
    function GetOr(default: T): T {
      match this
      case Some(v) => v
      case None => default
    }
  }

  datatype Result<+T, +E> = Ok(value: T) | Err(error: E)
}
