/** Optional values: `null`/`undefined` in the editor's objects. */
module Wrappers {

  datatype Option<+T> = None | Some(value: T)
}
