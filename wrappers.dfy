/** Optional values (a JSON `null`/absent value, or a lookup that finds nothing) and `findIndex`. */
module Wrappers {

  datatype Option<+T> = None | Some(value: T) {

    /** The value, or `default` when there is none. */
    function GetOr(default: T): T {
      match this
      case Some(v) => v
      case None => default
    }
  }

  /** `findIndex`: the first index whose element satisfies `p`, with `|xs|` standing for -1. */
  function FindIndex<T>(xs: seq<T>, p: T -> bool): (r: nat)
    ensures r <= |xs|
    ensures r < |xs| ==> p(xs[r])
    ensures forall k :: 0 <= k < r ==> !p(xs[k])
  {
    if xs == [] then 0
    else if p(xs[0]) then 0
    else 1 + FindIndex(xs[1..], p)
  }
}
