/** Failure-carrying result types shared by the banking model: the source signals
    missing values with null and failures with early returns or exceptions. */
module Results {

  /** A value that may be absent (the source's null). */
  datatype Option<+T> = None | Some(value: T)

  /** Either a computed value or the reason the operation was refused. */
  datatype Result<+T, +E> = Success(value: T) | Failure(error: E)
}
