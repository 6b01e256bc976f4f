/** Optional value for the not-found result of `get`. */
module Wrappers {

  /** `None` stands for "no such key"; `Some(v)` carries a found value. */
  datatype Option<+T> = None | Some(value: T)
}
