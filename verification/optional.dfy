/** Failure-carrying wrappers shared by every module of the model. */
module Optional {

  /** A value that may be absent: JavaScript's `undefined`/`null` where the code tests for it. */
  datatype Option<T> = None | Some(value: T) {

    /** The wrapped value, or `default` when absent (JavaScript's `x || default` on objects). */
    function GetOr(default: T): T {
      match this
      case Some(v) => v
      case None => default
    }
  }

  /** The outcome of an operation that either produces a value or throws an error with a message. */
  datatype Result<T, E> = Success(value: T) | Failure(error: E)
}
