/** An optional value: the empty slot of a queue block (Go's nil), or the
    result of a scan that may find nothing. */
module Options {

  datatype Option<T> = None | Some(value: T)
}
