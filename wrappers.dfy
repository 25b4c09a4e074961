/** The optional value used wherever the JavaScript code reads something that
    may be absent. */
module Wrappers {

  datatype Option<+T> = None | Some(value: T) {

    /** `value ?? default`. */
    function GetOr(default: T): T {
      match this
      case Some(v) => v
      case None => default
    }
  }
}
