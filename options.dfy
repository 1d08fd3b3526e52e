/** The optional value both generators use where Go returns "nothing" or an error. */
module Options {

  datatype Option<+T> = None | Some(value: T)
}
