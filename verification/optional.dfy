/** Failure-carrying wrappers used by the model: `Option` stands for a Java
    reference that may be `null`, `Result` for a computation that may throw. */
module Optional {

  /** A value that may be absent (Java `null`). */
  datatype Option<+T> = None | Some(value: T)

  /** The outcome of a computation that either returns a value or throws an
      exception carrying a message. */
  datatype Result<+T> = Success(value: T) | Failure(message: string) {

    /** Catching the exception and replacing it by `null`. */
    function ToOption(): (o: Option<T>)
      ensures o.Some? <==> Success?
      ensures o.Some? ==> o.value == value
    {
      match this
      case Success(v) => Some(v)
      case Failure(_) => None
    }
  }
}
