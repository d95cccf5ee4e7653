/** Optional values: an empty worksheet cell, a topic that is not found. */
module Wrappers {

  datatype Option<+T> = None | Some(value: T)
}
