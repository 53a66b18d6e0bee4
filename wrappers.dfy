/** Optional values, used for the options whose absence the source tests with `||`. */
module Wrappers {
  datatype Option<T> = None | Some(value: T)
}
