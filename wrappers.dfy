/** Failure-carrying values shared by every module of the model. */
module Wrappers {

  /** A value that may be missing, as Python's `None`. */
  datatype Option<+T> = None | Some(value: T)

  /** The outcome of a Python call: a value, or an exception that escaped the call. */
  datatype Result<+T> = Ok(value: T) | Err(error: string)
}
