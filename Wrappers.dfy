/** Optional values: a host lookup that may find nothing, a leaf that may show no file. */
module Wrappers {
  datatype Option<+T> = None | Some(value: T)
}
