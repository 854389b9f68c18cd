/** The optional-value datatype used for the request's `'stat'` array entry,
    which is either absent or present. */
module Wrappers {

  /** A key that may be missing: `None` when the array form has no such key,
      `Some(value)` when it holds `value`. */
  datatype Option<+T> = None | Some(value: T) {

    /** The held value, or `default` when the key is missing. */
    function GetOr(default: T): T {
      match this
      case Some(v) => v
      case None => default
    }
  }
}
