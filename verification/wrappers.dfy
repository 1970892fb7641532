/** Optional values: a JavaScript `undefined`/absent field or an SQL NULL is `None`. */
module Wrappers {
  datatype Option<+T> = None | Some(value: T)
}
