/** The optional value the game uses for "no pending direction" and "no tail dropped yet". */
module Wrappers {

  datatype Option<+T> = None | Some(value: T)
}
