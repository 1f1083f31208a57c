/** Small value types shared by the rest of the model. */
module Base {

  /** A value that may be missing: Python's None, Ruby's nil. */
  datatype Option<+T> = None | Some(value: T)
}
