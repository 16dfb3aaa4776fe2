/** Optional values: pandas' NaN, Python's None and a missing dictionary key
    are all modelled as None. */
module Wrappers {

  datatype Option<+T> = None | Some(value: T)
}
