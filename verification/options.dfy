/** The optional value used for the lookahead buffers and for optional locations. */
module Options {

  datatype Option<+T> = None | Some(value: T)
}
