/** Optional values: a missing cell of the census table, an optional argument. */
module Wrappers {

  datatype Option<+T> = None | Some(value: T)

}
