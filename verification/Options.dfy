/** The result of a lookup that may find nothing (the source's NULL return). */
module Options {
  datatype Option<+T> = None | Some(value: T)
}
