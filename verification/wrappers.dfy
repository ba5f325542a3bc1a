/** Optional values: the model's stand-in for a Python exception that aborts a computation. */
module Wrappers {

  datatype Option<+T> = None | Some(value: T)

}
