/** The optional value used for Python's `dict.get` defaults and for a key
    rotator that has nothing to hand out. */
module Wrappers {

  datatype Option<+T> = None | Some(value: T) {

    /** `d.get(k, default)`: the value when present, else the default. */
    function GetOr(default: T): T {
      match this
      case Some(v) => v
      case None => default
    }
  }

  /** The zero- or one-element list holding an optional value. */
  function ToSeq<T>(o: Option<T>): (r: seq<T>)
    ensures |r| <= 1
    ensures o.None? <==> r == []
    ensures o.Some? ==> r == [o.value]
  {
    match o
    case Some(v) => [v]
    case None => []
  }
}
