/** The optional value shared by the other modules: JavaScript's `undefined` is `None`. */
module Wrappers {

  datatype Option<+T> = None | Some(value: T)
}
