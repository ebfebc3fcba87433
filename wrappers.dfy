/** Optional values: the model's rendering of `undefined`, `null` and of the
    `NO_VALUE` sentinel. */
module Wrappers {
  datatype Option<+T> = None | Some(value: T)
}
