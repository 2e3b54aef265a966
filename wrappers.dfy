/** Optional values: JavaScript's `null` / `undefined` for a missing field or an unset piece of state. */
module Wrappers {

  datatype Option<+T> = None | Some(value: T)
}
