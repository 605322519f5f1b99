/** The result of an operation that can fail with a message. */
module Wrappers {
  datatype Result<T> = Success(value: T) | Failure(error: string)
}
