/** The optional value used wherever the client reads something that may be absent:
    a stored history, a chat found by id, the next fence match. */
module Options {

  datatype Option<+T> = None | Some(value: T)
}
