/** Optional values, standing in for the source's `None`. */
module Wrappers {
  datatype Option<+T> = None | Some(value: T)
}
