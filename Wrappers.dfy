/** Optional values: Java's nullable references. */
module Wrappers {

  /** `None` stands for Java's `null`. */
  datatype Option<+T> = None | Some(value: T) {

    /** The value, or `default` when there is none. */
    function GetOr(default: T): T {
      match this
      case Some(v) => v
      case None => default
    }
  }
}
