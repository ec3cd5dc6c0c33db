/** Optional values, for what the source writes as `None`. */
module Wrappers {
  datatype Option<+T> = None | Some(value: T)
}
