/** The Option type used for the dictionary loader's "no dictionary" result. */
module Wrappers {

  datatype Option<+T> = None | Some(value: T)
}
