/** Absence and error signals shared by every generation of the container. */
module Wrappers {

  /** `std::optional`: a value or its absence. */
  datatype Option<+T> = None | Some(value: T)

  /**
   * Why an operation did not take effect: the two exception classes the
   * growable containers throw, and the refusal the fixed-capacity container
   * prints when it is full.
   */
  datatype Error =
    | OutOfRange   // std::out_of_range, or an invalid index: a position outside the valid range
    | EmptyArray   // std::logic_error: an operation undefined on an empty array
    | Full         // the fixed-capacity container has no free slot

  /** The outcome of an operation that returns a value or throws. */
  datatype Result<+T> = Success(value: T) | Failure(error: Error)

  /** The outcome of a `void` operation that may throw. */
  datatype Outcome = Pass | Fail(error: Error)
}
