/** Sequences: no element twice, and the part before a terminator. */
module Sequences {

  predicate Distinct<T(==)>(s: seq<T>) {
    forall i, j :: 0 <= i < j < |s| ==> s[i] != s[j]
  }

  /** What stands before the first stop, all of s if there is none. */
  function Before<T(==)>(s: seq<T>, stop: T): (r: seq<T>)
    ensures stop !in r && |r| <= |s|
    ensures stop !in s ==> r == s
    ensures r == s[..|r|] && (|r| < |s| ==> s[|r|] == stop)
  {
    if s == [] || s[0] == stop then [] else [s[0]] + Before(s[1..], stop)
  }
}
