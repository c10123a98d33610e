/** Failure-carrying wrappers shared by the parser modules. */
module Wrappers {

  datatype Option<+T> = None | Some(value: T)

  /** Either a parsed value or the reason the parse was abandoned. */
  datatype Result<+T, +E> = Ok(value: T) | Err(error: E)
}
