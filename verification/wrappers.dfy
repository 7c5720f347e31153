/** The optional value used for key codes and for the last accepted arrow of a key sequence. */
module Wrappers {

  datatype Option<+T> = None | Some(value: T)
}
