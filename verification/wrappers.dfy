/** Failure-carrying datatypes shared by the parsers. */
module Wrappers {

  /** A value that may be absent: the Python `None` / match-object convention */
  datatype Option<+T> = None | Some(value: T)

  /** The outcome of a computation that may raise: `Failure` carries the
      message of the exception the Python code would raise. */
  datatype Result<+R> = Success(value: R) | Failure(error: string)
}
