/** The value of a call that may yield nothing. */
module Options {
  datatype Option<+T> = None | Some(value: T)
}
