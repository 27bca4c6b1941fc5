/** Optional values, for pandas' "nothing here" outcomes (a missing value, a failed load). */
module Wrappers {
  datatype Option<+T> = None | Some(value: T)
}
