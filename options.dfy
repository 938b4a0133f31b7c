/** Swift's optional values and the `first`/`last` accessors of its arrays. */
module Options {

  datatype Option<+T> = None | Some(value: T) {

    /** The `??` operator: the wrapped value, or `default` when there is none. */
    function GetOr(default: T): (r: T)
      ensures None? ==> r == default
      ensures Some? ==> r == value
    {
      match this
      case Some(v) => v
      case None => default
    }
  }

  /** `Array.first`: nil on an empty array. */
  function First<T>(s: seq<T>): (r: Option<T>)
    ensures r.None? <==> |s| == 0
    ensures r.Some? ==> s == [r.value] + s[1..]
  {
    if |s| == 0 then None else Some(s[0])
  }

  /** `Array.last`: nil on an empty array. */
  function Last<T>(s: seq<T>): (r: Option<T>)
    ensures r.None? <==> |s| == 0
    ensures r.Some? ==> s == s[..|s| - 1] + [r.value]
  {
    if |s| == 0 then None else Some(s[|s| - 1])
  }
}
