/** First-match lookup by a record's id, shared by every `find`/`findIndex` on ids. */
module Lookup {
  import opened Options

  /** The position `findIndex(x => idOf(x) === id)` returns, or None for -1. */
  function FirstIndexOf<T>(s: seq<T>, idOf: T -> string, id: string): (r: Option<nat>)
    ensures r.Some? ==> r.value < |s| && idOf(s[r.value]) == id
    ensures r.Some? ==> forall j :: 0 <= j < r.value ==> idOf(s[j]) != id
    ensures r.None? ==> forall j :: 0 <= j < |s| ==> idOf(s[j]) != id
  {
    if s == [] then None
    else if idOf(s[0]) == id then Some(0)
    else match FirstIndexOf(s[1..], idOf, id)
      case None => None
      case Some(k) => Some(k + 1)
  }
}
