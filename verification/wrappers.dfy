/** Small failure-carrying datatypes shared by the model. */
module Wrappers {

  /** A value that may be absent; a storage cell is `None` while uninitialised. */
  datatype Option<+T> = None | Some(value: T)

  /** The outcome of an operation that either produces a value or reports an error. */
  datatype Result<+R, +E> = Success(value: R) | Failure(error: E)
}
