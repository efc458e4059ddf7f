/** Optional values: the model's stand-in for a nullable pointer returned by a lookup. */
module Wrappers {

  datatype Option<+T> = None | Some(value: T)
}
