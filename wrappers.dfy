/** The optional value used wherever the program can fail or a field can be absent. */
module Wrappers {

  datatype Option<+T> = None | Some(value: T)
}
