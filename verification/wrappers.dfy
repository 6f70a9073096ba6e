/** The optional-value datatype used wherever the modelled code returns
    `undefined`/`null` in place of a value. */
module Wrappers {

  /** `None` plays the part of JavaScript's `undefined` (or `null`). */
  datatype Option<+T> = None | Some(value: T) {

    /** The encapsulated value, or `default` when there is none. */
    function GetOr(default: T): T {
      match this
      case Some(v) => v
      case None => default
    }
  }
}
