/** Optional values, used for the float parser and for string search. */
module Wrappers {

  datatype Option<T> = None | Some(value: T)

}
