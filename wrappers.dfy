/** Optional values: `None` stands for pandas' NaN / Python's `None`. */
module Wrappers {
  datatype Option<+T> = None | Some(value: T)
}
