/** The optional value used throughout the model, for the source's std::optional. */
module Options {
  datatype Option<+T> = None | Some(value: T)
}
