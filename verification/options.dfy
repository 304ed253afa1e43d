/** An optional value, used for the results of the parsers that invert the
    notation the chess model prints. */
module Options {

  datatype Option<+T> = None | Some(value: T)
}
