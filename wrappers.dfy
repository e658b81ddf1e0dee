/** Optional values: a cache lookup that may miss, a callback that may be
    unset, a repair source that may not exist. */
module Wrappers {
  datatype Option<T> = None | Some(value: T)
}
