/** What several loops need to know about sequences. */
module Sequences {

  lemma Regroup<T>(a: seq<T>, b: seq<T>, c: seq<T>)
    ensures a + (b + c) == (a + b) + c
  {
  }

  /** The first index of `x`; the length when it is not there. */
  function IndexOf<T(==)>(s: seq<T>, x: T): (k: nat)
    ensures k <= |s|
    ensures k < |s| ==> s[k] == x
    ensures forall i :: 0 <= i < k ==> s[i] != x
  {
    if s == [] || s[0] == x then 0 else 1 + IndexOf(s[1..], x)
  }

  /** No other index has these properties. */
  lemma FoundIndex<T>(s: seq<T>, x: T, k: nat)
    requires k <= |s| && (k < |s| ==> s[k] == x)
    requires forall i :: 0 <= i < k ==> s[i] != x
    ensures k == IndexOf(s, x)
  {
  }
}
