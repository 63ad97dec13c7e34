/** Failure-carrying wrappers shared by the whole model. */
module Results {

  /** A value that may be absent (Python's `None`). */
  datatype Option<T> = None | Some(value: T) {
    function GetOr(default: T): T {
      match this
      case Some(v) => v
      case None => default
    }
  }

  /** Either a value or the error that the Python code would raise. */
  datatype Result<T, E> = Success(value: T) | Failure(error: E)
}
