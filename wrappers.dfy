/** Option and Result values for PHP's `null` and for a thrown exception. */
module Wrappers {

  /** `None` stands for PHP's `null`. */
  datatype Option<+T> = None | Some(value: T)

  /** `Failure` carries the message of the exception the source throws. */
  datatype Result<+T> = Success(value: T) | Failure(error: string)
}
