/** Small wrapper datatypes shared by the other modules. */
module Common {

  /** A value that may be absent: a JSON key that is missing, a search that found nothing. */
  datatype Option<T> = None | Some(value: T) {

    /** The value, or `default` when absent (Python's `dict.get(key, default)`). */
    function GetOr(default: T): T {
      match this
      case Some(v) => v
      case None => default
    }
  }

  /** The outcome of an operation that can raise: a value, or the error it raised. */
  datatype Result<T, E> = Success(value: T) | Failure(error: E)
}
