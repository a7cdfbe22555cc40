/** Optional values: the `null` / `undefined` / "key absent" cases of the exam screen. */
module Wrappers {
  datatype Option<+T> = None | Some(value: T)
}
