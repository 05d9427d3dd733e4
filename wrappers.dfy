/** Optional values, used where the source passes or returns a NULL pointer. */
module Wrappers {
  datatype Option<+T> = None | Some(value: T)
}
