/** Small value types shared by every part of the model. */
module Wrappers {

  /** A value that may be absent: Go's nil pointer or a JSON field that is not there. */
  datatype Option<+T> = None | Some(value: T)

  /** A Go `error` value: only its message is observable. */
  datatype Error = Error(message: string)

  /** The value of an operation that may fail, or its error. */
  datatype Result<+T> = Success(value: T) | Failure(error: Error)
}
