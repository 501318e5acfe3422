/** The optional value used for nil pointers and for a constructor that can refuse its argument. */
module Wrappers {
  datatype Option<+T> = None | Some(value: T)
}
