/** The usual Some/None datatype, used where the program returns "nothing" or a value. */
module Wrappers {

  datatype Option<+T> = None | Some(value: T)

  /** The sequence holding the value of `o`, or the empty sequence. */
  function ToSeq<T>(o: Option<T>): (s: seq<T>)
    ensures |s| <= 1
    ensures o.Some? <==> |s| == 1
    ensures o.Some? ==> s[0] == o.value
  {
    match o
    case None => []
    case Some(v) => [v]
  }
}
