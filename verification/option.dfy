/** Optional values: a JavaScript property that may be absent, a lookup that may miss. */
module Opt {

  datatype Option<+T> = None | Some(value: T) {

    /** The value, or the given default when absent. */
    function GetOr(default: T): T {
      match this
      case Some(v) => v
      case None => default
    }
  }
}
