/** Optional values shared by the modules of the model. */
module Wrappers {

  /** Python's value-or-None. */
  datatype Option<+T> = None | Some(value: T)
}
