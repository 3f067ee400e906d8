/** The Option datatype, standing in for Java's and JavaScript's null. */
module Wrappers {

  /** `None` plays the part of `null` / `undefined`; `Some(v)` a present value. */
  datatype Option<+T> = None | Some(value: T) {

    /** `GetOr(d)`: the present value, or the fallback `d` for a missing one. */
    function GetOr(default: T): T {
      match this
      case Some(v) => v
      case None => default
    }
  }
}
