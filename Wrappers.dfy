/** Optional values: an attribute that may be missing from an element. */
module Wrappers {
  datatype Option<+T> = None | Some(value: T)
}
