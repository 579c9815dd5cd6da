/** Optional values, for the fields that start out as `None` in the tracker. */
module Wrappers {
  datatype Option<+T> = None | Some(value: T)
}
