/** Optional values: a keyword argument that may be absent, a JSON field that may be missing. */
module Wrappers {

  datatype Option<+T> = None | Some(value: T)

}
