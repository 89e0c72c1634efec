/** The optional value used where race.js reads past the end of an
    array and gets `undefined`. */
module Wrappers {

  datatype Option<+T> = None | Some(value: T)

}
