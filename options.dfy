/** The outcome of an operation that the script lets fail by raising an
    exception (a ValueError from strptime, an IndexError from indexing a
    split): None stands for the raised error. */
module Options {
  datatype Option<T> = None | Some(value: T)
}
