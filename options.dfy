/** The optional value that the engine uses for cells, winners and moves. */
module Options {

  datatype Option<T> = None | Some(value: T)

}
