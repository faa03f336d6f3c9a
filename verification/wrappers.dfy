/** The optional value used wherever the widget has "undefined". */
module Wrappers {

  datatype Option<+T> = None | Some(value: T) {

    /** The value if present, else the default (JavaScript's `x || d` on a date). */
    function GetOr(default: T): T {
      match this
      case Some(v) => v
      case None => default
    }
  }
}
