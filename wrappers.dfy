/** Optional values: the settings record of the plugin leaves every field optional. */
module Wrappers {

  /** A value that may be absent, as an optional field of a settings record. */
  datatype Option<+T> = None | Some(value: T) {

    /** The value if present, otherwise `default` (the `??` operator of the source). */
    function GetOr(default: T): (r: T)
      ensures Some? ==> r == value
      ensures None? ==> r == default
    {
      match this
      case Some(v) => v
      case None => default
    }
  }
}
