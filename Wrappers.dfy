/** Optional values, used where the engine may have no value to give. */
module Wrappers {

  datatype Option<+T> = None | Some(value: T)
}
