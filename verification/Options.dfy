/** A value that may be missing: no frame, no owner, a failed call. */
module Options {
  datatype Option<+T> = None | Some(value: T)
}
