/** A value that may be missing: a null pointer, an unready slot, a failed match. */
module Options {
  datatype Option<+T> = None | Some(value: T)
}
