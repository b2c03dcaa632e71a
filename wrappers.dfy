/** Optional values: Go's nil pointer and "no row" results. */
module Wrappers {
  datatype Option<+T> = None | Some(value: T)
}
