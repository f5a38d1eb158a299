/** `Option` and `Result`, shared by the other modules. */
module Wrappers {

  /** A value that may be absent: Python's `None` or an actual value. */
  datatype Option<+T> = None | Some(value: T)

  /** The result of a step that either yields a value or stops with an error value. */
  datatype Result<+R, +E> = Ok(value: R) | Err(error: E)
}
