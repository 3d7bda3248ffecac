/** The optional value shared by every module: None stands for the
    source's None result or for an exception the source raises. */
module Options {
  datatype Option<T> = None | Some(value: T)
}
