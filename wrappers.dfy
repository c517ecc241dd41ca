/** Option and Result: a C# null reference and a thrown exception, as values. */
module Wrappers {

  /** `None` stands for a null reference. */
  datatype Option<+T> = None | Some(value: T)

  /** `Failure` stands for an exception the operation throws. */
  datatype Result<+R, +E> = Success(value: R) | Failure(error: E)
}
