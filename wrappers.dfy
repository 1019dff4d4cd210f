/** The optional value used wherever the Java code passes or returns a
    reference that may be null. */
module Wrappers {

  datatype Option<+T> = None | Some(value: T)
}
