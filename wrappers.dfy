/** Optional values, used for operations that may produce nothing. */
module Wrappers {
  datatype Option<+T> = None | Some(value: T)
}
