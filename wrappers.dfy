/** Optional values, used for the outcomes of operations that can fail. */
module Wrappers {

  datatype Option<+T> = None | Some(value: T)
}
