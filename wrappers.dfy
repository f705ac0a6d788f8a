/** Optional values, used for the name of the file whose removal failed. */
module Wrappers {

  datatype Option<+T> = None | Some(value: T)
}
