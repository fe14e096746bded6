/**
 * Explicit string searches: the two primitive questions a JavaScript
 * regular-expression match asks of the token's `aud` claim, written as
 * recursive functions instead of a regex engine.
 */
module Strings {
  import opened Wrappers

  /** `t` occurs in `s` starting at index `p`. */
  ghost predicate OccursAt(s: string, t: string, p: int)
  {
    0 <= p && p + |t| <= |s| && s[p..p + |t|] == t
  }

  /** Unanchored substring containment: `t` occurs somewhere in `s`. */
  function Contains(s: string, t: string): (r: bool)
    ensures r <==> exists p :: OccursAt(s, t, p)
    decreases |s|
  {
    if |s| < |t| then false
    else if s[..|t|] == t then (assert OccursAt(s, t, 0); true)
    else
      assert forall q :: 1 <= q ==> (OccursAt(s, t, q) <==> OccursAt(s[1..], t, q - 1));
      assert forall q :: OccursAt(s[1..], t, q) ==> OccursAt(s, t, q + 1);
      Contains(s[1..], t)
  }

  /** The first index at or after `from` that holds `c`, if there is one. */
  function FirstIndex(s: string, c: char, from: nat): (r: Option<nat>)
    ensures r.Some? ==> from <= r.value < |s| && s[r.value] == c
    ensures r.Some? ==> forall k :: from <= k < r.value ==> s[k] != c
    ensures r.None? ==> forall k :: from <= k < |s| ==> s[k] != c
    decreases |s| - from
  {
    if from >= |s| then None
    else if s[from] == c then Some(from)
    else FirstIndex(s, c, from + 1)
  }
}
