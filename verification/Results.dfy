/** A value that may be missing. */
module Results {
  datatype Option<+T> = None | Some(value: T)
}
