/** Optional values: a database column that may be NULL (Python `None`). */
module Wrappers {

  datatype Option<+T> = None | Some(value: T)

}
