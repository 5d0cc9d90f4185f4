/** The optional value used for an empty square and for "no move". */
module Options {

  datatype Option<+T> = None | Some(value: T)
}
