/** Option and Result, used for the source's `None` values and raised exceptions. */
module Wrappers {

  datatype Option<+T> = None | Some(value: T)

  datatype Result<+T, +E> = Ok(value: T) | Err(error: E)

  /** The list `[x]` when the option holds `x`, and `[]` otherwise. */
  function OptionList<T>(o: Option<T>): (r: seq<T>)
    ensures |r| <= 1
    ensures o.Some? <==> |r| == 1
    ensures o.Some? ==> r[0] == o.value
  {
    match o
    case None => []
    case Some(x) => [x]
  }
}
