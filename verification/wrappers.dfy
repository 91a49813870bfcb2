/** Option and Result, for Java's nullable references, Optional and thrown exceptions. */
module Wrappers {

  /** A value that may be absent: a Java reference that may be null, or an Optional. */
  datatype Option<+T> = None | Some(value: T)

  /** Either a value or the reason it could not be produced. */
  datatype Result<+T, +E> = Success(value: T) | Failure(error: E)
}
