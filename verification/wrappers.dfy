/** Optional values, standing in for the nullable pointers of the tag store. */
module Wrappers {

  /** `None` plays the role of a null pointer, `Some(v)` of a pointer to `v`. */
  datatype Option<+T> = None | Some(value: T)
}
