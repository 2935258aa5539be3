/** Failure-carrying values. Each `process::exit` of the source becomes one of these. */
module Wrappers {

  datatype Option<+T> = None | Some(value: T)

  datatype Result<+T, +E> = Ok(value: T) | Err(error: E)

  /** A pass/fail outcome for operations that return nothing on success. */
  datatype Outcome<+E> = Pass | Fail(error: E)
}
