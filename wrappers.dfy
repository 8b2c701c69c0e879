/** Optional values, for the host dialog that may be cancelled and for a callback that may not fire. */
module Wrappers {
  datatype Option<+T> = None | Some(value: T)
}
