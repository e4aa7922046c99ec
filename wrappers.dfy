/** Optional values, standing for Python's `None` or a raised-and-caught exception. */
module Wrappers {
  datatype Option<+T> = None | Some(value: T)
}
