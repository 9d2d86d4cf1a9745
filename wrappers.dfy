/** Optional values, standing for Python's `None` and for nullable model fields. */
module Wrappers {
  datatype Option<+T> = None | Some(value: T) {
    /** Python's `x or default` when every present `x` is truthy. */
    function GetOr(default: T): T {
      if Some? then value else default
    }
  }
}
