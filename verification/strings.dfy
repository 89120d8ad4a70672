/** Substring search on strings, as JavaScript's `indexOf` and `includes`. */
module Strings {
  import opened Options

  /** `t` occurs in `s` starting at index `i`. */
  predicate OccursAt(s: string, t: string, i: nat) {
    i + |t| <= |s| && s[i..i + |t|] == t
  }

  /** The first index at or after `from` where `t` occurs in `s`. */
  function IndexFrom(s: string, t: string, from: nat): (r: Option<nat>)
    ensures r.Some? ==> from <= r.value && OccursAt(s, t, r.value)
    ensures r.Some? ==> forall j: nat :: from <= j < r.value ==> !OccursAt(s, t, j)
    ensures r.None? ==> forall j: nat :: from <= j ==> !OccursAt(s, t, j)
    decreases |s| - from
  {
    if from + |t| > |s| then None
    else if OccursAt(s, t, from) then Some(from)
    else IndexFrom(s, t, from + 1)
  }

  /** The first index where `t` occurs in `s`, as `s.indexOf(t)`. */
  function IndexOf(s: string, t: string): Option<nat> {
    IndexFrom(s, t, 0)
  }

  /** `s.includes(t)`: `t` is a substring of `s` (the empty string is a substring of every string). */
  predicate Includes(s: string, t: string)
    ensures Includes(s, t) <==> exists i: nat :: OccursAt(s, t, i)
  {
    IndexOf(s, t).Some?
  }

  /** Every string contains itself. */
  lemma IncludesItself(s: string)
    ensures Includes(s, s)
  {
    assert s[0..|s|] == s;
    assert OccursAt(s, s, 0);
  }
}
