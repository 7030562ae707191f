/**
  Optional values (an element a DOM query may not find, a selection that may be
  absent) and the first-match search behind `Array.prototype.find` and
  `querySelector`.
 */
module Wrappers {

  datatype Option<+T> = None | Some(value: T)

  /** The position of the first element of `s` satisfying `p`, or None when there is none. */
  function FindIndex<T>(s: seq<T>, p: T -> bool): (r: Option<nat>)
    ensures r.None? <==> forall i :: 0 <= i < |s| ==> !p(s[i])
    ensures r.Some? ==> r.value < |s| && p(s[r.value])
    ensures r.Some? ==> forall j :: 0 <= j < r.value ==> !p(s[j])
  {
    if s == [] then None
    else if p(s[0]) then Some(0)
    else match FindIndex(s[1..], p)
      case None => None
      case Some(k) => Some(k + 1)
  }

  /** The first element of `s` satisfying `p`, as `find` returns it. */
  function Find<T>(s: seq<T>, p: T -> bool): Option<T> {
    match FindIndex(s, p)
    case None => None
    case Some(i) => Some(s[i])
  }
}
