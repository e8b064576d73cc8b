/** An optional value, for results the code returns as `std::optional`. */
module Options {
  datatype Option<+T> = None | Some(value: T)
}
