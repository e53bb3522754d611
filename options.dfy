/** The optional value used wherever the C# source works with a reference that may be null. */
module Options {

  datatype Option<T> = None | Some(value: T)
}
