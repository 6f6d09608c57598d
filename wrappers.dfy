/** Optional values: a form field that may be absent, a fetch that may fail. */
module Wrappers {

  datatype Option<+T> = None | Some(value: T)
}
