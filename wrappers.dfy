/** Optional values, used wherever the source returns a null pointer, Python's None
    or "not found". */
module Wrappers {
  datatype Option<+T> = None | Some(value: T)
}
