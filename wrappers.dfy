/** Option and Result, used for JavaScript's "value or undefined/null" and for the
    reorder error that the list code leaves unchecked. */
module Wrappers {

  datatype Option<+T> = None | Some(value: T) {
    function GetOr(default: T): T {
      match this
      case Some(v) => v
      case None => default
    }
  }

  datatype Result<+T, +E> = Ok(value: T) | Err(error: E)
}
