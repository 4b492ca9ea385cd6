/**
 * First-match-wins search over an ordered sequence: Python's
 * `next((x for x in xs if p(x)), None)`, a `for` loop with an early `return`,
 * and an `if`/`elif`/`else` chain are all this one search.
 */
module Search {
  import opened Wrappers

  /** The index of the earliest element of `s` that satisfies `p`, if any. */
  function FirstIndex<T>(s: seq<T>, p: T -> bool): (r: Option<nat>)
    ensures r.Some? ==> r.value < |s| && p(s[r.value])
    ensures r.Some? ==> forall j :: 0 <= j < r.value ==> !p(s[j])
    ensures r.None? <==> forall j :: 0 <= j < |s| ==> !p(s[j])
  {
    if s == [] then None
    else if p(s[0]) then Some(0)
    else match FirstIndex(s[1..], p)
         case None => None
         case Some(i) => Some(i + 1)
  }

  /** An index that satisfies `p` after only failures is the one found. */
  lemma FirstIndexIs<T>(s: seq<T>, p: T -> bool, i: nat)
    requires i < |s| && p(s[i])
    requires forall j :: 0 <= j < i ==> !p(s[j])
    ensures FirstIndex(s, p) == Some(i)
  {
  }

  /**
   * Elements after the first match are never consulted: replacing everything
   * after it leaves the answer unchanged.
   */
  lemma FirstIndexIgnoresRest<T>(s: seq<T>, p: T -> bool, rest: seq<T>)
    requires FirstIndex(s, p).Some?
    ensures var i := FirstIndex(s, p).value;
            FirstIndex(s[..i + 1] + rest, p) == Some(i)
  {
    var i := FirstIndex(s, p).value;
    var t := s[..i + 1] + rest;
    assert forall j :: 0 <= j <= i ==> t[j] == s[j];
    FirstIndexIs(t, p, i);
  }
}
