/** Optional values: JavaScript's `null` / "no result" in this model. */
module Wrappers {

  datatype Option<+T> = None | Some(value: T)

}
