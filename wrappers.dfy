/** Wrappers for the nullable values and thrown exceptions of the form-state saver. */
module Wrappers {

  /** A value that may be absent: a C# `null` reference or an unset `bool?`. */
  datatype Option<+T> = None | Some(value: T)

  /** The outcome of a computation that either returns a value or throws. */
  datatype Result<+T, +E> = Ok(value: T) | Failure(error: E)
}
