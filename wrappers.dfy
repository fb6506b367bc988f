/** Optional values: a Go pointer or func value that may be nil. */
module Wrappers {

  datatype Option<+T> = None | Some(value: T)
}
