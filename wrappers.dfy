/** Optional values, used where the C code returns or stores a possibly-NULL pointer. */
module Wrappers {

  datatype Option<+T> = None | Some(value: T)

}
