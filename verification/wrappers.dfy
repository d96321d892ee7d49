/** The Option type for the cells of a plate layout. */
module Wrappers {

  /** A plate-layout cell: a well (`Some`) or an empty position (`None`, Python's `None`). */
  datatype Option<+T> = None | Some(value: T)
}
