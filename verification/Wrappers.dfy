/** Optional values: SQL NULL, an absent JSON member, a failed conversion. */
module Wrappers {
  datatype Option<+T> = None | Some(value: T)
}
