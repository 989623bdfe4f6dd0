/** The optional-value wrapper shared by the front-end and back-end models. */
module Wrappers {

  datatype Option<+T> = None | Some(value: T)

}
