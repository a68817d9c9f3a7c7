/** The one wrapper the entities need: a column or field that may hold SQL NULL or Java null. */
module Wrappers {

  /** A nullable Java reference or nullable column: `None` is null, `Some(v)` holds `v`. */
  datatype Option<+T> = None | Some(value: T) {

    /** What a join reads from a missing row: the held value, or `default` for null. */
    function GetOr(default: T): T {
      match this
      case Some(v) => v
      case None => default
    }
  }
}
