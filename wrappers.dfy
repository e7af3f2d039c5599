/** Option and Result values standing in for Python's None and raised exceptions. */
module Wrappers {

  datatype Option<+T> = None | Some(value: T)

  /** `Err` carries the message of the exception the Python code raises. */
  datatype Result<+T> = Ok(value: T) | Err(message: string)

  /** A result with no value: an operation that either returns or raises. */
  datatype Outcome = Done | Failed(message: string)
}
