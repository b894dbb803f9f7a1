/** Optional values: the model's stand-in for JavaScript's `undefined`, `null` and `NaN`. */
module Wrappers {

  /** `None` is an absent value (`undefined`/`null`) or a failed numeric parse (`NaN`). */
  datatype Option<+T> = None | Some(value: T) {

    /** Returns the encapsulated value, or `default` when there is none. */
    function GetOr(default: T): T {
      match this
      case Some(v) => v
      case None => default
    }
  }
}
