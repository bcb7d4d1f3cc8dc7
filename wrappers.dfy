/** Optional values, as Python's `None`-or-value returns. */
module Wrappers {

  datatype Option<T> = None | Some(value: T)
  {
    function GetOr(default: T): (r: T)
      ensures this.Some? ==> r == value
      ensures this.None? ==> r == default
    {
      if this.Some? then value else default
    }
  }
}
