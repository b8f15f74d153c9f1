/** Optional values, used for the outcomes of blocking waits and adapter enumeration. */
module Wrappers {

  datatype Option<+T> = None | Some(value: T)
}
