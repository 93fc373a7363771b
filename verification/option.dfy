/** The optional value used wherever the pipeline returns `None` or raises
    for an input it cannot use. */
module Optional {

  datatype Option<+T> = None | Some(value: T)
}
