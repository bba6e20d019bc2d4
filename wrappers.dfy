/** Failure-carrying result types shared by the model. */
module Wrappers {

  /** A value that may be absent (JavaScript `null` / `undefined`). */
  datatype Option<T> = None | Some(value: T)

  /** The outcome of an operation that can throw. */
  datatype Result<T, E> = Ok(value: T) | Err(error: E)
}
