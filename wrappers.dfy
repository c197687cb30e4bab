/** Optional values, used where the source returns early without a result. */
module Wrappers {
  datatype Option<+T> = None | Some(value: T)
}
