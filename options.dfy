/** The optional-value wrapper shared by every module of the model. */
module Options {

  /** A value that may be absent (Python's `None`, or a caught exception). */
  datatype Option<+T> = None | Some(value: T)
}
