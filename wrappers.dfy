/** The optional value used for absent files, missing keys and failed lookups. */
module Wrappers {

  datatype Option<+T> = None | Some(value: T)
}
