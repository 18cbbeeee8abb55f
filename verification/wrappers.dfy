/** Optional values: a key that `dict.get` may find missing. */
module Wrappers {

  datatype Option<+T> = None | Some(value: T)

}
