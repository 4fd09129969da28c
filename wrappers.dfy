/** The optional value the model uses for operations that can raise. */
module Wrappers {

  datatype Option<+T> = None | Some(value: T)
}
