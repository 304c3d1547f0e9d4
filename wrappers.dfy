/** The optional value used for the results that the source returns as `None`. */
module Wrappers {

  datatype Option<+T> = None | Some(value: T)

  /** The set holding the value of `o`, if it has one. */
  function ToSet<T>(o: Option<T>): set<T> {
    match o
    case None => {}
    case Some(v) => {v}
  }
}
