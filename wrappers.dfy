/** The optional value that the pipeline uses wherever Python returns `None`. */
module Wrappers {

  datatype Option<+T> = None | Some(value: T)
}
