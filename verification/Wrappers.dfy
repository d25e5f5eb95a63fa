/** The usual optional-value datatype: `None` stands for JavaScript's
    `undefined`/`null` and Python's `None` wherever the site reads a value
    that may be missing. */
module Wrappers {

  datatype Option<+T> = None | Some(value: T) {

    /** The value, or `default` when there is none (JavaScript's `x || d`
        when `x` can only be missing, never falsy). */
    function GetOr(default: T): T {
      match this
      case Some(v) => v
      case None => default
    }
  }
}
