/** The two stock result types the other modules share. */
module Wrappers {
  datatype Option<+T> = None | Some(value: T)

  /** A returned value, or the exception the source raises instead. */
  datatype Result<+T, +E> = Ok(value: T) | Err(error: E)
}
