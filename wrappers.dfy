/** Optional values, used wherever the server may or may not produce something
    (a completed payload, a broadcast). */
module Wrappers {

  datatype Option<T> = None | Some(value: T)

  /** The list holding the value of `o`, if any. */
  function AsSeq<T>(o: Option<T>): seq<T>
  {
    match o
    case None => []
    case Some(v) => [v]
  }
}
