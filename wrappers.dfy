/** The optional value used throughout the model: a JavaScript `undefined` or
    `null` (an absent header, a missing request field, a lookup that found
    nothing) is `None`. */
module Wrappers {

  datatype Option<+T> = None | Some(value: T) {

    /** The value, or `default` when there is none. */
    function GetOr(default: T): T {
      match this
      case Some(v) => v
      case None => default
    }
  }
}
