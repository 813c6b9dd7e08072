/** Optional values: a missing id, the root sentinel's missing parent, a query with no answer. */
module Wrappers {

  datatype Option<+T> = None | Some(value: T)
}
