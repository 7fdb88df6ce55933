/** The optional and success-or-error result types shared by the whole model. */
module Wrappers {

  /** A value that may be missing, such as the result of a decoder that found nothing it can read. */
  datatype Option<+T> = None | Some(value: T)

  /** The outcome of an operation that stops at its first error. */
  datatype Result<+T, +E> = Success(value: T) | Failure(error: E)
}
