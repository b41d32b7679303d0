/** Optional values, used where the source returns NULL, a NO_COORD location or "no move". */
module Wrappers {

  datatype Option<T> = None | Some(value: T)
}
