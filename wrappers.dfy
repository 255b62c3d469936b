/** Optional values, for the places where the source returns `None` or `False`. */
module Wrappers {

  datatype Option<+T> = None | Some(value: T)
}
