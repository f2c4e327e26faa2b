/** A value that may be absent: a NULL, a missing row, a miss. */
module Options {

  datatype Option<+T> = None | Some(value: T)
}
