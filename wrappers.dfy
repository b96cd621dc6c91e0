/** Optional values: SQL NULL on the database side, `null` in the JSON envelope. */
module Wrappers {
  datatype Option<+T> = None | Some(value: T)
}
