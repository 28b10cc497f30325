/** The optional value returned by the searches of the model. */
module Wrappers {

  datatype Option<T> = None | Some(value: T)
}
