/** The optional value used for a missing series description and a failed directory listing. */
module Options {
  datatype Option<T> = None | Some(value: T)
}
