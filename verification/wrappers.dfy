/** The optional value returned where the store answers "nothing" (Python's None). */
module Wrappers {

  datatype Option<+T> = None | Some(value: T)
}
