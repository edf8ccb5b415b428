/** Optional values: a file that may be absent, an environment variable that may be unset. */
module Wrappers {
  datatype Option<T> = None | Some(value: T)
}
