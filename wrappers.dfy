/** Optional values: a table slot that may hold no card, a queue that may be empty. */
module Wrappers {

  datatype Option<+T> = None | Some(value: T)
}
