/** The optional value used wherever JavaScript has `undefined` beside a real value. */
module Wrappers {

  datatype Option<+T> = None | Some(value: T)
}
