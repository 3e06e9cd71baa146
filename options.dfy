/** The "a value or nothing" result that the search returns in place of a
    missing book. */
module Options {
  datatype Option<+T> = None | Some(value: T)
}
