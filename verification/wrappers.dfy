/** Small helper datatypes shared by the model. */
module Wrappers {

  /** An optional value; `None` stands for a value that is absent (or, for
      distances, for positive infinity). */
  datatype Option<+T> = None | Some(value: T)
}
