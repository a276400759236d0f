/** Optional values, used for lookups and for the readback parsers that may fail. */
module Wrappers {

  datatype Option<+T> = None | Some(value: T)
}
