// The result of a lookup that can miss: Python's None, C's null pointer.
module Options {
  datatype Option<+T> = None | Some(value: T)
}
