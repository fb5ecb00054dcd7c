/** Optional values: Go's "value or nothing" (a nil error, a missing match). */
module Wrappers {

  datatype Option<+T> = None | Some(value: T)
}
