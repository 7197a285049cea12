/** Optional values, for the helpers whose C++ counterparts return "nothing". */
module Wrappers {
  datatype Option<+T> = None | Some(value: T)
}
