/** Optional values, used for Go's nil pointers and nil errors. */
module Wrappers {

  /** `None` plays the part of Go's nil; `Some(v)` a non-nil pointer or interface value. */
  datatype Option<+T> = None | Some(value: T) {

    /** Returns the wrapped value, or `default` when there is none. */
    function GetOr(default: T): T {
      match this
      case Some(v) => v
      case None => default
    }
  }
}
