/** The optional value the model uses where the source returns `None`,
    `null` or an empty `Optional`. */
module Wrappers {
  datatype Option<+T> = None | Some(value: T)
}
