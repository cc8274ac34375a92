/** The usual Some/None datatype, standing in for JavaScript's `null`. */
module Options {
  datatype Option<+T> = None | Some(value: T)
}
