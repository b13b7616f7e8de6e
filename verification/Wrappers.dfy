/** Optional values, for the `Option` and `Result` types of the source. */
module Wrappers {

  datatype Option<+T> = None | Some(value: T)
}
