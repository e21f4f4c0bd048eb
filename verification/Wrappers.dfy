/** The option type used for optional fields and for lookups that may miss. */
module Wrappers {
  datatype Option<+T> = None | Some(value: T) {
    /** The encapsulated value, or a default when there is none. */
    function GetOr(default: T): T {
      match this
      case Some(v) => v
      case None => default
    }
  }
}
