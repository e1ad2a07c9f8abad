/** Optional values: JavaScript's `undefined` for a missing key, an absent storage slot. */
module Wrappers {

  datatype Option<+T> = None | Some(value: T)

}
