/** Failure-carrying values used across the model: `Option` for a value that
    may be absent, `Result` for an operation that may throw. */
module Wrappers {

  datatype Option<+T> = None | Some(value: T)

  /** A thrown JavaScript error, identified by its constructor name (or, for
      a `DOMException`, by its name). */
  datatype Error = TypeError | RangeError | QuotaExceededError

  datatype Result<+T> = Ok(value: T) | Err(error: Error)
}
