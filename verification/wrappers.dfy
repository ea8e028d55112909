/** Failure-carrying results for the places where the Python code raises. */
module Wrappers {

  datatype Option<+T> = None | Some(value: T)

  /** The outcome of a computation that may raise; the error names the exception kind. */
  datatype Result<+T> = Ok(value: T) | Err(error: Failure)

  /** The Python exceptions the modelled code can raise and not catch locally. */
  datatype Failure = IndexError | ValueError
}
