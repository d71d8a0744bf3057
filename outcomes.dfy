/** Optional values and results that carry an error message, used by both parsers. */
module Outcomes {

  /** A value that may be absent: JavaScript's `undefined`/`null`, Python's `None`. */
  datatype Option<T> = None | Some(value: T)

  /** The outcome of an operation that either succeeds or throws an `Error` with a message. */
  datatype Result<T> = Ok(value: T) | Err(message: string)
}
