/** A value that may be missing, as Java's `null` or a one-element split array signals. */
module Optional {
  datatype Option<+T> = None | Some(value: T)
}
