/** Failure-carrying datatypes used for the server's optional values and error replies. */
module Wrappers {

  /** A value that may be absent (Python's `None`, or a missing JSON key). */
  datatype Option<+T> = None | Some(value: T)

  /** The outcome of a request handler: a new value, or the error it replies with. */
  datatype Result<+T, +E> = Success(value: T) | Failure(error: E)
}
