/** The absent-or-present value used wherever the source tests a value for
    truthiness (`undefined`, `null`, a missing field) before using it. */
module Optional {

  datatype Option<+T> = None | Some(value: T)
}
