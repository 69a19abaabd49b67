/** A value or nothing, and a value or the exception raised instead. */
module Wrappers {
  datatype Option<+T> = None | Some(value: T)

  /** The exceptions the modelled code raises. */
  datatype Error = ValueError | IndexError | KeyError

  datatype Result<+T> = Ok(value: T) | Err(error: Error)
}
