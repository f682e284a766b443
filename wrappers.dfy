/** Optional values: a missing query parameter, a missing response field, a string that does not parse. */
module Wrappers {
  datatype Option<+T> = None | Some(value: T)
}
