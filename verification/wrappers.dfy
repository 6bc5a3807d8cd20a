/** Nullable values and success-or-failure results, the two shapes the
    services use for "maybe absent" (C# nullable references) and "may throw". */
module Wrappers {

  /** A value that may be absent: the model of a C# `T?`. */
  datatype Option<+T> = None | Some(value: T) {

    /** The wrapped value, or `default` when absent (C#'s `??`). */
    function GetOr(default: T): T {
      match this
      case Some(v) => v
      case None => default
    }
  }

  /** The outcome of an operation that the source lets throw: `Err` carries
      the exception message. */
  datatype Result<+T, +E> = Ok(value: T) | Err(error: E)
}
