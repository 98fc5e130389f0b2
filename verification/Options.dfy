/** A pointer that may be null, or a search that may find nothing. */
module Options {
  datatype Option<+T> = None | Some(value: T)
}
