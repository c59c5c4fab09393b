/** A value that may be missing: a null reference, an exception or undefined behaviour in the programs. */
module Options {
  datatype Option<+T> = None | Some(value: T)
}
