/** Optional values: a SQL lookup that finds no row, and a JavaScript value that may be `undefined`. */
module Wrappers {

  datatype Option<+T> = None | Some(value: T)
}
