/** Kotlin's nullable values: `T?` becomes `Option<T>`, `x ?: d` becomes `x.GetOr(d)`. */
module Wrappers {

  datatype Option<+T> = None | Some(value: T) {

    /** The value, or `default` when there is none (Kotlin's `?:`). */
    function GetOr(default: T): T {
      match this
      case Some(v) => v
      case None => default
    }
  }
}
