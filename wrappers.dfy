/** Optional values: a dictionary lookup that may miss, an XML text that may be None. */
module Wrappers {

  datatype Option<+T> = None | Some(value: T)
  {
    /** `d.get(key, default)` once the lookup has been done. */
    function GetOr(default: T): T
    {
      match this
      case Some(v) => v
      case None => default
    }
  }
}
