/** The optional value used where the pages return `null`. */
module Wrappers {

  datatype Option<+T> = None | Some(value: T)
}
