/** An optional value: what the source writes as a pointer that may be NULL. */
module Base {
  datatype Option<+T> = None | Some(value: T)
}
