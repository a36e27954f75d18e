/** Optional values: a Go zero-value string or nil error that means "absent". */
module Wrappers {

  datatype Option<+T> = None | Some(value: T)
}
