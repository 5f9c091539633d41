/** Optional values: the model's stand-in for Python's None and SQL NULL. */
module Wrappers {

  datatype Option<+T> = None | Some(value: T)
}
