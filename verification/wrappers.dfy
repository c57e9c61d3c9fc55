/** The optional value used for attributes the persistent store may leave unset. */
module Wrappers {

  datatype Option<+T> = None | Some(value: T)
}
