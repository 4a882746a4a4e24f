/** Optional values, as the captures of a regular expression and JavaScript's `x || y` use them. */
module Wrappers {

  datatype Option<T> = None | Some(value: T) {

    /** The value if there is one, otherwise `fallback` (JavaScript's `x || fallback` on a capture). */
    function OrElse(fallback: T): (r: T)
      ensures Some? ==> r == value
      ensures None? ==> r == fallback
    {
      match this
      case Some(v) => v
      case None => fallback
    }
  }
}
