/** Values the two containers hand back to their callers: the absent
    sentinel (Java `null` on the value side) and the exceptions they raise. */
module Results {

  /** `None` stands for a Java `null` result; `Some(v)` for a non-null one. */
  datatype Option<+T> = None | Some(value: T) {

    /** The wrapped value, or `default` when absent. */
    function GetOr(default: T): T {
      match this
      case Some(v) => v
      case None => default
    }
  }

  /** The exceptions the containers raise, named after the Java class thrown. */
  datatype Error =
    | IndexOutOfBounds(index: int)          // java.lang.IndexOutOfBoundsException
    | IllegalArgument(from: int, to: int)   // java.lang.IllegalArgumentException
    | NoSuchElement                         // java.util.NoSuchElementException

  /** Either the operation's value or the exception it raised. */
  datatype Result<+R> = Success(value: R) | Failure(error: Error)
}
