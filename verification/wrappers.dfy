/** Optional value, standing in for JavaScript's `null` and `undefined`. */
module Wrappers {

  datatype Option<+T> = None | Some(value: T)
  {
    /** The value, or `default` when there is none (a JavaScript default
        parameter). */
    function GetOr(default: T): T {
      if Some? then value else default
    }
  }
}
