/** The optional value used wherever the Python code returns `None` or a value. */
module Optional {

  datatype Option<+T> = None | Some(value: T)
}
