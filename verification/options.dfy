/** Optional values, shared by every module of the model. */
module Options {

  /** A value that may be missing: `None` stands for an absent JavaScript
      member or a result that does not exist (`NaN`, a thrown read), `Some(v)`
      for a present one. */
  datatype Option<T> = None | Some(value: T)
}
