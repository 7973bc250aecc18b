/** The optional value used for results that may be missing: a fetch that
    yields no HTML page, a keyword list given as None, a dict lookup by `get`. */
module Wrappers {

  datatype Option<+T> = None | Some(value: T) {

    /** The wrapped value, or `default` when there is none. */
    function GetOr(default: T): T {
      match this
      case Some(v) => v
      case None => default
    }
  }
}
