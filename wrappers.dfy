/** Optional values, used wherever the modelled code may produce nothing or fail. */
module Wrappers {

  datatype Option<+T> = None | Some(value: T)
}
