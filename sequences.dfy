/** Searching a sequence front to back, as Kotlin's `indexOfFirst`, `firstOrNull` and `filter { … }.take(1)` do. */
module Sequences {
  import opened Wrappers

  /** The position of the first element that satisfies `p`, if there is one. */
  function FirstIndex<T>(s: seq<T>, p: T -> bool): (r: Option<nat>)
    ensures r.Some? ==> r.value < |s| && p(s[r.value])
    ensures r.Some? ==> forall j :: 0 <= j < r.value ==> !p(s[j])
    ensures r.None? <==> forall j :: 0 <= j < |s| ==> !p(s[j])
  {
    if s == [] then None
    else if p(s[0]) then Some(0)
    else match FirstIndex(s[1..], p)
      case None => None
      case Some(i) => Some(i + 1)
  }

  /** A position whose element satisfies `p`, with none before it that does, is the first one. */
  lemma FirstIndexAt<T>(s: seq<T>, p: T -> bool, i: nat)
    requires i < |s| && p(s[i])
    requires forall j :: 0 <= j < i ==> !p(s[j])
    ensures FirstIndex(s, p) == Some(i)
  {
  }

  /** The first element that satisfies `p`, if there is one. */
  function FirstOf<T>(s: seq<T>, p: T -> bool): (r: Option<T>)
    ensures r.Some? <==> FirstIndex(s, p).Some?
    ensures r.Some? ==> r.value == s[FirstIndex(s, p).value]
  {
    match FirstIndex(s, p)
    case None => None
    case Some(i) => Some(s[i])
  }
}
