/** Optional values, for results that the source leaves stale or absent. */
module Wrappers {
  datatype Option<T> = None | Some(value: T)
}
