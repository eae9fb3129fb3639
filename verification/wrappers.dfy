/** The optional values of the script: a JavaScript value that may be `null` or
    `undefined` is an Option, and `x ?? d` is `GetOr`. */
module Wrappers {

  datatype Option<+T> = None | Some(value: T) {

    /** The nullish-coalescing operator `this ?? default`: only an absent value
        falls back; a present value is kept even when it is empty or zero. */
    function GetOr(default: T): (r: T)
      ensures Some? ==> r == value
      ensures None? ==> r == default
    {
      match this
      case Some(v) => v
      case None => default
    }
  }
}
