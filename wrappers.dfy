/** Optional values, used where the source returns "nothing" or a parse can fail. */
module Wrappers {
  datatype Option<+T> = None | Some(value: T)
}
