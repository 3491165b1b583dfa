/** A value that may be absent: an empty side of the book, a field that does not parse, a
    call that panics. */
module Options {
  datatype Option<+T> = None | Some(value: T)
}
