/** Option and Result, the two shapes Go's (value, ok) and (value, error) pairs take in this model. */
module Wrappers {

  /** An optional value: `None` plays the role of Go's zero value meaning "unset". */
  datatype Option<+T> = None | Some(value: T)

  /** A value or an error, the model of a Go `(T, error)` return. */
  datatype Result<+R, +E> = Success(value: R) | Failure(error: E)

  /** The zero-or-one element sequence an Option stands for (Go appends it or not). */
  function OptionToSeq<T>(o: Option<T>): (s: seq<T>)
    ensures |s| <= 1
    ensures o.Some? <==> |s| == 1
    ensures o.Some? ==> s[0] == o.value
  {
    match o
    case None => []
    case Some(v) => [v]
  }
}
