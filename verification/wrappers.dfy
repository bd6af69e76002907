/** Optional values, standing in for Ruby's `nil`. */
module Wrappers {

  /** `None` plays the role of Ruby's `nil` wherever a value may be absent. */
  datatype Option<+T> = None | Some(value: T) {

    /** Returns the wrapped value, or `default` when there is none. */
    function GetOr(default: T): T {
      match this
      case Some(v) => v
      case None => default
    }
  }
}
