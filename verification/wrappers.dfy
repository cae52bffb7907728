/** Option and Result: a NULL pointer and a fatal exit, as values. */
module Wrappers {

  /** A C pointer that may be NULL. */
  datatype Option<+T> = None | Some(value: T)

  /** The outcome of an operation that either succeeds or ends the process with a diagnostic. */
  datatype Result<+T, +E> = Ok(value: T) | Err(error: E)
}
