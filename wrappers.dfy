/** The optional value used for nullable pointers throughout the model. */
module Wrappers {
  datatype Option<T> = None | Some(value: T)
}
