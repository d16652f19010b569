/** The optional value that stands for a strict decode that raised an error. */
module Options {

  datatype Option<+T> = None | Some(value: T)
}
