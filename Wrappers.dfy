/** Option and Result, the two failure-carrying datatypes the model uses:
    Option for Python's "value or None", Result for a value or a raised error. */
module Wrappers {

  datatype Option<+T> = None | Some(value: T)

  datatype Result<+R, +E> = Ok(value: R) | Err(error: E)
}
