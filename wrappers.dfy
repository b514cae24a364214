/** Optional values, for Python's `None` and for nullable foreign keys. */
module Wrappers {

  datatype Option<+T> = None | Some(value: T)
}
