/** The optional value shared by the other modules: a missing key, a call that reported no error. */
module Options {

  /** A value that may be absent. */
  datatype Option<+T> = None | Some(value: T)
}
