/** Optional values: the `null` apple of the browser games and `None` of the
    training environment. */
module Wrappers {

  datatype Option<+T> = None | Some(value: T)
}
