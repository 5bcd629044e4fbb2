/** The conventional Some/None datatype. */
module Options {
  datatype Option<+T> = None | Some(value: T)
}
