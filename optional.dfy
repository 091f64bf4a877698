/** Python's `None`-or-value, used for every nullable field and result of the model. */
module Optional {

  datatype Option<+T> = None | Some(value: T)
}
