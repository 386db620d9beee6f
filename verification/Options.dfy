/** An optional value: a C pointer or return code that may stand for nothing. */
module Options {
  datatype Option<+T> = None | Some(value: T)
}
