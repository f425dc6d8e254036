/** Optional values, standing for Python's `None` and for "no row found". */
module Wrappers {

  datatype Option<+T> = None | Some(value: T)

}
