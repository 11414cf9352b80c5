/** The usual Some/None wrapper, used for operations that can fail. */
module Optional {

  datatype Option<+T> = None | Some(value: T)
}
