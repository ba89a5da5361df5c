/** Result shapes shared by the whole toolkit model. */
module Values {

  /** A slot that may hold JavaScript's `undefined`: a read past the end of an
      array, a missing property, or a result that was never computed. */
  datatype Option<T> = None | Some(value: T)

  /** The outcome of an operation that reads `.length` of its first argument:
      called with no arguments at all, JavaScript throws a TypeError. */
  datatype Result<T> = Ok(value: T) | TypeError

  /** The contents of an optional array, with `undefined` read as the empty array. */
  function OrEmpty<T>(o: Option<seq<T>>): seq<T>
  {
    match o
    case None => []
    case Some(s) => s
  }
}
