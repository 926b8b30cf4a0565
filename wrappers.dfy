/** Optional values: JavaScript's `undefined` / `null` beside a real value. */
module Wrappers {

  datatype Option<+T> = None | Some(value: T)
}
