/** Optional values used by the time reader and the save action. */
module Wrappers {

  datatype Option<+T> = None | Some(value: T)
}
