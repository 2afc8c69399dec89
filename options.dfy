/** The usual Some/None datatype, standing for a pointer that may be NULL. */
module Options {
  datatype Option<+T> = None | Some(value: T)
}
