/** The value that may be absent: a nullable column, an optional field, a lookup that may fail. */
module Options {

  datatype Option<+T> = None | Some(value: T)
}
