/** Optional values, used where the original code finds nothing or parses nothing. */
module Wrappers {

  datatype Option<+T> = None | Some(value: T)
}
