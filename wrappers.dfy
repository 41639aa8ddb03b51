/** Option and Result values used in place of .NET's null references and exceptions. */
module Wrappers {

  /** A value that may be absent: `None` stands for a null reference. */
  datatype Option<+T> = None | Some(value: T)

  /** The outcome of an operation that either returns a value or throws. */
  datatype Result<+R, +E> = Success(value: R) | Failure(error: E)
}
