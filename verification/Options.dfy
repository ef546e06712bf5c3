/** Values that may be absent: null pointers, refused requests and searches that find nothing. */
module Options {

  datatype Option<T> = None | Some(value: T)
}
