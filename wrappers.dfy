/** Optional values, standing for the source's NULL pointers and missing Lua fields. */
module Wrappers {

  datatype Option<T> = None | Some(value: T)
}
