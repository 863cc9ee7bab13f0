/** Failure-carrying values used throughout the model. */
module Wrappers {

  /** A value that may be absent, e.g. the result of parsing a number. */
  datatype Option<+T> = None | Some(value: T)

  /** Either a computed value or the exception the operation raised. */
  datatype Result<+T, +E> = Success(value: T) | Failure(error: E)
}

/** The Java runtime exceptions the core raises synchronously. */
module Exceptions {

  datatype Exception =
    | IllegalArgumentException(message: string)
    | IllegalStateException(message: string)
    | ArrayIndexOutOfBoundsException
}
