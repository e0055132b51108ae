/** Optional values, used for the reads that may find no usable data. */
module Wrappers {

  datatype Option<+T> = None | Some(value: T)
}
