/** Java's null reference, and the outcome of a call that may throw. */
module Results {

  /** `None` stands for a Java `null`. */
  datatype Option<+T> = None | Some(value: T) {
    function GetOr(default: T): T {
      match this
      case Some(v) => v
      case None => default
    }
  }

  /** The outcome of an operation that either returns normally or throws. */
  datatype Result<+R, +E> = Success(value: R) | Failure(error: E)
}
