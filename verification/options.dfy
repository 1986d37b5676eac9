/** The optional value used wherever the form code reads something that may be
    `undefined`. */
module Options {
  datatype Option<T> = None | Some(value: T)
}
