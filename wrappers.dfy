/** The optional value used for absent query parameters, absent uploads and storage faults. */
module Wrappers {

  datatype Option<+T> = None | Some(value: T)
}
