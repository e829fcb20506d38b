/** Optional values and results with an error, as used throughout the model. */
module Basics {

  /** A field that a JSON record may or may not carry. */
  datatype Option<T> = None | Some(value: T) {

    /** The value when present, `default` otherwise (Python's `dict.get(key, default)`). */
    function GetOr(default: T): T {
      if Some? then value else default
    }
  }

  /** The value of an operation, or the exception that aborts it. */
  datatype Result<T, E> = Success(value: T) | Failure(error: E)
}
