/** Optional values: a SQL column that may be NULL, a request field that may be absent. */
module Wrappers {

  datatype Option<+T> = None | Some(value: T)
}
