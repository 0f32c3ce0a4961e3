/** An optional value, for the source's Swift optionals. */
module Optional {
  datatype Option<T> = None | Some(value: T)
}
