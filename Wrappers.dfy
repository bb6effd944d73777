/** The optional value the model uses wherever the program has `None`. */
module Wrappers {

  datatype Option<+T> = None | Some(value: T)
}
