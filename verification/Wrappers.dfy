/** Result types shared by the models. */
module Wrappers {

  /** A value that may be absent. */
  datatype Option<+T> = None | Some(value: T)

  /** How a Go routine can end: with a value, with an error value, or by a panic. */
  datatype Outcome<+T> = Ok(value: T) | Err | Panic
}
