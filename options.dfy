/** The optional value shared by the name normaliser and the cookbook:
    Python's `None` or a present value. */
module Options {

  datatype Option<+T> = None | Some(value: T)

}
