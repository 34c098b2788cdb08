/** Optional values and the failures the services raise. */
module Outcomes {

  /** A value that may be absent: a Java reference that may be null, or an `Optional`. */
  datatype Option<+T> = None | Some(value: T)

  /** The exceptions the modelled services throw, as values. */
  datatype Error =
    /** `IllegalArgumentException` with its message. */
    | IllegalArgument(message: string)
    /** `IllegalStateException` thrown by `Collectors.toMap` when two entries share a key. */
    | DuplicateKey(key: string)

  /** Either the value an operation returns or the exception it throws. */
  datatype Result<+T> = Ok(value: T) | Err(error: Error)
}
