/** Option and Result, the failure-carrying values used across the model. */
module Wrappers {

  /** `folly::Optional`, `std::optional`, or a `unique_ptr` that may be null. */
  datatype Option<+T> = None | Some(value: T)

  /** A value or an error: `folly::Expected`, or a function that throws. */
  datatype Result<+T, +E> = Ok(value: T) | Err(error: E)
}
