/** The optional value the components keep in nullable state (`Question | null`, `string | null`). */
module Options {

  datatype Option<T> = None | Some(value: T)

  /** The value if present, otherwise the fallback (object spread: a missing key keeps the old field). */
  function GetOr<T>(o: Option<T>, fallback: T): T
  {
    match o
    case Some(v) => v
    case None => fallback
  }
}
