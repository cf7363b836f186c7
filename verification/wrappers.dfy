/** The optional value used by the parsers and filters of this model. */
module Wrappers {

  datatype Option<+T> = None | Some(value: T)

}
