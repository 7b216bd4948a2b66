/** A value that may be missing: nil, NULL, or no match. */
module Optional {
  datatype Option<+T> = None | Some(value: T)
}
