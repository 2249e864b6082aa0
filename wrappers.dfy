/** Failure-compatible optional values, used for every operation of the model that
    can raise (a parse of a malformed number, a frame that cannot be extracted). */
module Wrappers {

  datatype Option<+T> = None | Some(value: T) {

    /** The wrapped value, or `default` when there is none. */
    function GetOr(default: T): T {
      match this
      case Some(v) => v
      case None => default
    }
  }
}
