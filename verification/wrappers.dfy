/** Failure-compatible wrappers used to model Python's exceptions and `None`. */
module Wrappers {

  /** A value that may be absent, such as the result of `dict.get` on a missing key. */
  datatype Option<+T> = None | Some(value: T) {

    /** Returns the carried value, or `default` when there is none. */
    function GetOr(default: T): T {
      match this
      case Some(v) => v
      case None => default
    }
  }

  /** Either a value or the exception the Python code raises instead. */
  datatype Result<+R, +E> = Success(value: R) | Failure(error: E) {

    /** Forgets the error, as a `try: ... except Exception: pass` block does. */
    function ToOption(): Option<R> {
      match this
      case Success(v) => Some(v)
      case Failure(_) => None
    }
  }
}
