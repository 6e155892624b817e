/** Option type standing for the nullable pointers of the C++ and Rust code. */
module Wrappers {

  /** `None` models a null pointer, `Some(v)` a pointer to `v`. */
  datatype Option<+T> = None | Some(value: T) {

    /** The value, or a default when the pointer is null. */
    function GetOr(default: T): T
    {
      match this
      case Some(v) => v
      case None => default
    }
  }
}
