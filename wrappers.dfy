/** Optional values: Go's `error` (nil or an error message) and Go's comma-ok results. */
module Wrappers {

  datatype Option<+T> = None | Some(value: T)
}
