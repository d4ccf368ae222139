/** Optional values, standing in for Python's `None` and for a raised
    exception on inputs an operation rejects. */
module Wrappers {
  datatype Option<T> = None | Some(value: T)
}
