/** The optional value used by both halves of the model (C's "no value" and Python's None). */
module Wrappers {

  datatype Option<+T> = None | Some(value: T)
}
