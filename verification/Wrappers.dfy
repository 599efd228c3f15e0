/** Optional values, for the source's null pointers, failed requests and aborts. */
module Wrappers {
  datatype Option<+T> = None | Some(value: T)
}
