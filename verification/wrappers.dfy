/** Optional values and fallible results, the Dafny counterparts of Swift's
    `T?` and `throws`. */
module Wrappers {

  /** Swift's optional: `nil` is `None`. */
  datatype Option<+T> = None | Some(value: T) {

    /** The `??` operator: the wrapped value, or `default` when absent. */
    function GetOr(default: T): T {
      match this
      case Some(v) => v
      case None => default
    }
  }

  /** The outcome of an operation that may throw. */
  datatype Result<+R, +E> = Success(value: R) | Failure(error: E)
}
