/** Optional values, used wherever the source has a null QVariant, a missing
    JSON key or a conversion that reports failure through a `bool *ok`. */
module Wrappers {

  datatype Option<+T> = None | Some(value: T) {

    /** The value, or `default` when there is none. */
    function GetOr(default: T): T {
      match this
      case Some(v) => v
      case None => default
    }
  }
}
