/** Optional values: `None` stands for JavaScript's `null`, `undefined` and the `NaN`
    that `parseInt` returns when its input has no leading digits. */
module Wrappers {

  datatype Option<+T> = None | Some(value: T) {

    /** Returns the value held in `Some`, or `default` for `None`. */
    function GetOr(default: T): T {
      match this
      case Some(v) => v
      case None => default
    }
  }
}
