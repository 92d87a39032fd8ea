/** Optional values: the pricer's barrier type is either absent (Python's None) or a string. */
module Wrappers {
  datatype Option<+T> = None | Some(value: T)
}
