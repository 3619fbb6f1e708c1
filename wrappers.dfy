/** The optional value the models return where the source returns `Option`. */
module Wrappers {
  datatype Option<+T> = None | Some(value: T)
}
