/** The optional value used where the library would look up a label it was never given. */
module Wrappers {

  datatype Option<+T> = None | Some(value: T)
}
