/** Optional values, as Rust's `Option`. */
module Wrappers {
  datatype Option<T> = None | Some(value: T)
  {
    /** `unwrap_or`: the contained value, or the given default. */
    function UnwrapOr(default: T): (r: T)
      ensures this.Some? ==> r == this.value
      ensures this.None? ==> r == default
    {
      match this
      case Some(v) => v
      case None => default
    }
  }
}
