/** Optional values. `None` also stands for a C NULL pointer where the source tests for one. */
module Wrappers {

  datatype Option<T> = None | Some(value: T)

}
