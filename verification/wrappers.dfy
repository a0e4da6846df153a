/** Optional values, standing for Python's `None` versus a real result. */
module Wrappers {
  datatype Option<T> = None | Some(value: T)
}
