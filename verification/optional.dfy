/** The absent-or-present value used wherever the source uses a nullable reference. */
module Optional {
  datatype Option<+T> = None | Some(value: T)
}
