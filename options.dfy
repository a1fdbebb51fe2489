/** The absent-or-present result of `vec_at` and `vec_last` (a null or a non-null pointer). */
module Options {

  datatype Option<T> = None | Some(value: T)
}
