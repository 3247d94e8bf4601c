/** Optional values: `None` stands for the `null` a lookup resolves to when nothing matches. */
module Wrappers {

  datatype Option<+T> = None | Some(value: T)
}
