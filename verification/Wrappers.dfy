/** Stock datatypes shared by the models of both plugins. */
module Wrappers {

  datatype Option<+T> = None | Some(value: T)
}
