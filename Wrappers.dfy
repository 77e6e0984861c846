/** Result and option types for the operations of the pipelines. */
module Wrappers {

  /** The outcome of an operation that can end in an exception. */
  datatype Result<+T> = Success(value: T) | Failure(error: string)

  /** A value that may be absent. */
  datatype Option<T> = None | Some(value: T)
}
