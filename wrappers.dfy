/** Optional values, used for Go's nil pointers and for a rendering that cannot be read back. */
module Wrappers {

  datatype Option<+T> = None | Some(value: T)
}
