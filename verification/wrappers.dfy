/** Optional values: JSON fields that may be absent or null, and JavaScript's
    "falsy" fallbacks. */
module Wrappers {

  datatype Option<+T> = None | Some(value: T) {

    /** The value if present, otherwise `default`. */
    function GetOr(default: T): T {
      match this
      case Some(v) => v
      case None => default
    }
  }
}
