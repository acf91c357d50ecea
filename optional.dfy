/** The usual Some/None wrapper, used for decoders that can fail. */
module Optional {

  datatype Option<+T> = None | Some(value: T)
}
