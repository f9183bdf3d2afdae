/** Optional values: used for a Python value that may be absent (`None`)
    and for a parse that may raise `ValueError`. */
module Wrappers {

  datatype Option<+T> = None | Some(value: T)
}
