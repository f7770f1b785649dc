/** The exceptions the indexes throw, as values. */
module Errors {
  /** std::out_of_range for a query index, std::invalid_argument for an empty input. */
  datatype Error = OutOfRange | InvalidArgument

  datatype Result<T> = Ok(value: T) | Err(error: Error)
}
