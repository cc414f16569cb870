/** Optional values: the model's stand-in for SQL NULL and for "no row". */
module Wrappers {

  datatype Option<+T> = None | Some(value: T)
}
