/** The optional result used where the source returns `None`. */
module Wrappers {

  datatype Option<+T> = None | Some(value: T)
}
