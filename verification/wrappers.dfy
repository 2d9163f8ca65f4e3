/** The absent-or-present value used wherever the browser code reads something that may be
    missing: a `localStorage` entry, a checked radio button, an optional field of a user record. */
module Wrappers {

  datatype Option<+T> = None | Some(value: T) {

    /** The value, or `default` when absent. */
    function GetOr(default: T): T {
      match this
      case Some(v) => v
      case None => default
    }
  }
}
