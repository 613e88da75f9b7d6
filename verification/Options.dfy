/** A value that may be missing: null, undefined, or nothing found. */
module Options {
  datatype Option<+T> = None | Some(value: T)
}
