/** Optional values, used for the partial library calls the service relies on. */
module Wrappers {
  datatype Option<+T> = None | Some(value: T)
}
