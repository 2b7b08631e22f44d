/** Optional values, used wherever the preferences code
    looks something up that may be absent (a dictionary key, an attribute). */
module Wrappers {

  datatype Option<+T> = None | Some(value: T) {

    /** The contained value, or `default` when there is none. */
    function GetOr(default: T): T
    {
      match this
      case Some(v) => v
      case None => default
    }
  }
}
