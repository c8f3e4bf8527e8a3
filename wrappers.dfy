/** Optional values: Python's `None` next to a value of some type. */
module Wrappers {

  datatype Option<+T> = None | Some(value: T)
}
