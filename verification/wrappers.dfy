/** Optional values, used where the modelled Go code reports "no result" by a zero value
    or a failed type assertion. */
module Wrappers {

  datatype Option<+T> = None | Some(value: T)
}
