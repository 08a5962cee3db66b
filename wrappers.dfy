/** Optional values and results with an error, used for every step of the
    pipeline that can raise in the program. */
module Wrappers {

  datatype Option<T> = None | Some(value: T) {
    /** The value, or `default` when there is none (Python's `dict.get(k, default)` shape). */
    function GetOr(default: T): T {
      if Some? then value else default
    }
  }

  datatype Result<T, E> = Ok(value: T) | Err(error: E)
}
