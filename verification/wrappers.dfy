/** Optional values, used where the source passes `null` or has no result. */
module Wrappers {

  datatype Option<+T> = None | Some(value: T)
}
