/** Failure-carrying values for the source's `undefined` results and thrown errors. */
module Wrappers {

  datatype Option<+T> = None | Some(value: T)

  /** A computation that either produced a value or threw (`Err` carries the error message). */
  datatype Result<+T> = Ok(value: T) | Err(message: string)
}
