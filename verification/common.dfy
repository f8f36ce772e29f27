/** Failure-carrying wrappers shared by every module of the model. */
module Common {

  /** A value that may be absent; stands for Python's `None`. */
  datatype Option<+T> = None | Some(value: T)

  /** The outcome of a step that either yields a value or raises an error. */
  datatype Result<+T, +E> = Success(value: T) | Failure(error: E)
}
