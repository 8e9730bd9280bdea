/** Option and Result types, and the Python exceptions the modelled code raises. */
module Wrappers {

  datatype Option<+T> = None | Some(value: T)

  /** The exception classes that the modelled Python code can raise. */
  datatype Error = TypeError | ValueError | KeyError | IndexError | AttributeError

  /** The outcome of a Python call: a returned value, or a raised exception. */
  datatype Result<+T> = Ok(value: T) | Err(error: Error)

  /** The outcome of a Python procedure that returns None or raises. */
  datatype Outcome = Pass | Fail(error: Error)
}
