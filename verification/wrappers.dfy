/** Optional values: JavaScript's `undefined`/`null` and `Array.prototype.find` results. */
module Wrappers {

  datatype Option<+T> = None | Some(value: T)

}
