/** Option and Result values used where the source returns None or raises. */
module Wrappers {

  datatype Option<+T> = None | Some(value: T)

  /** A value, or the exception the source raises instead of returning one. */
  datatype Result<+T> = Ok(value: T) | Err(error: string)
}
