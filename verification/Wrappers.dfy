/** Results of operations that can raise, and optional values. */
module Wrappers {
  datatype Option<+T> = None | Some(value: T)

  /** The exceptions the modelled code raises. */
  datatype Error = ValueError | IndexError | KeyError | TypeError

  datatype Result<+T> = Ok(value: T) | Err(error: Error)
}
