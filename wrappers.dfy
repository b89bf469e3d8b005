/** Optional values, for results that JavaScript gives as `NaN` or never produces. */
module Wrappers {

  datatype Option<+T> = None | Some(value: T)
}
