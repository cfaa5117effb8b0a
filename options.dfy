/** An optional value: JavaScript's `null` or Python's missing key. */
module Options {
  datatype Option<T> = None | Some(value: T)
}
