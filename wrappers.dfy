/** The optional value used for the allocator's nullable pointers and reports. */
module Wrappers {
  datatype Option<T> = None | Some(value: T)
}
