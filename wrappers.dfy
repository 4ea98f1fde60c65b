/** Option and Result, the two failure-carrying types the Rust source uses. */
module Wrappers {

  datatype Option<+T> = None | Some(value: T) {
    /** The contained value, or `default` when there is none (Rust's `unwrap_or`). */
    function GetOr(default: T): T {
      match this
      case Some(v) => v
      case None => default
    }
  }

  datatype Result<+T, +E> = Ok(value: T) | Err(error: E)
}
