/** Option and Outcome values used to model the source's empty optionals and thrown exceptions. */
module Wrappers {

  /** `std::optional`: either no value or some value. */
  datatype Option<+T> = None | Some(value: T)

  /** The result of an operation that either succeeds with a value or throws. */
  datatype Result<+T, +E> = Ok(value: T) | Err(error: E)
}
