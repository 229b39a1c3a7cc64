/** Success/failure wrapper used for operations that can fail. */
module Wrappers {

  datatype Result<+T, +E> = Success(value: T) | Failure(error: E)
}
