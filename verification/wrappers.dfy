/** Optional values, for a JavaScript result that may be `undefined`. */
module Wrappers {

  datatype Option<+T> = None | Some(value: T)
}
