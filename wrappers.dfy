/** The optional value used where the pass works with possibly-null pointers. */
module Wrappers {

  datatype Option<+T> = None | Some(value: T)
}
