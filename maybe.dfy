/** The optional value used wherever the source can fail or return nothing. */
module Maybe {
  datatype Option<T> = None | Some(value: T)
}
