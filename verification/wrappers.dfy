/** Optional values and fallible results, in the shape of Rust's `Option` and `Result`. */
module Wrappers {

  datatype Option<+T> = None | Some(value: T) {

    /** Rust's `Option::or` (and, for an already-computed alternative, `or_else`):
        keep this value when there is one, otherwise fall back to `other`. */
    function Or(other: Option<T>): (r: Option<T>)
      ensures Some? ==> r == this
      ensures None? ==> r == other
      ensures r.Some? <==> Some? || other.Some?
    {
      if Some? then this else other
    }
  }

  datatype Result<+T, +E> = Success(value: T) | Failure(error: E)
}
