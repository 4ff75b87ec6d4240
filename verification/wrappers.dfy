/** Optional values, standing for Python's `None` and for attributes a search node may lack. */
module Wrappers {

  datatype Option<+T> = None | Some(value: T)
}
