/** The conventional option type; `None` also stands for a panic where a member says so. */
module Options {
  datatype Option<+T> = None | Some(value: T)
}
