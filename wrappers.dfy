/** Small value types shared by the containers: a nullable reference and the two
    standard-library exceptions the containers throw. */
module Wrappers {

  /** A pointer or iterator that may be null (`None`). */
  datatype Option<T> = None | Some(value: T)

  /** `std::out_of_range` and `std::invalid_argument`. */
  datatype Error = OutOfRange | InvalidArgument

  /** The result of an operation that either returns a value or throws. */
  datatype Result<T> = Success(value: T) | Failure(error: Error)
}
