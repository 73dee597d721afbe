/** Optional values: a DOM attribute that may be absent, a fetch that may yield no document. */
module Wrappers {

  datatype Option<+T> = None | Some(value: T)
}
