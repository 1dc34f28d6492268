/** Optional values: a column entry that pandas would hold as NaN is `None`. */
module Wrappers {

  datatype Option<+T> = None | Some(value: T)

}
