/** Optional values used throughout the model. */
module Wrappers {

  /** An optional value: `None` stands for a missing key, a null return or an absent field. */
  datatype Option<+T> = None | Some(value: T) {

    /** The carried value, or `default` when there is none. */
    function GetOr(default: T): T {
      match this
      case Some(v) => v
      case None => default
    }
  }
}
