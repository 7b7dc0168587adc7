/** Small value types shared by every module: Python's None-or-value and the
    two ways an operation of the application ends (normally or by raising). */
module Wrappers {

  /** A value that may be Python's None. */
  datatype Option<+T> = None | Some(value: T)

  /** The end of a call that may raise: a returned value or the raised error's message. */
  datatype Result<+T> = Ok(value: T) | Err(error: string)
}
