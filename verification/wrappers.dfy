/** The optional-value type used wherever the viewer uses Python's `None`. */
module Wrappers {

  /** `None` where the source returns or stores Python's `None`, `Some(v)` otherwise. */
  datatype Option<+T> = None | Some(value: T) {

    /** The wrapped value, or `default` for `None`. */
    function GetOr(default: T): T {
      match this
      case Some(v) => v
      case None => default
    }
  }
}
