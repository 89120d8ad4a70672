/** Small facts about sequences used by the crawl state. */
module Seqs {

  /** No element occurs twice. */
  predicate NoDups<T(==)>(s: seq<T>) {
    forall i, j :: 0 <= i < j < |s| ==> s[i] != s[j]
  }

  /** `p` is a prefix of `s`. */
  predicate IsPrefix<T(==)>(p: seq<T>, s: seq<T>) {
    |p| <= |s| && s[..|p|] == p
  }

  lemma PrefixTransitive<T>(a: seq<T>, b: seq<T>, c: seq<T>)
    requires IsPrefix(a, b) && IsPrefix(b, c)
    ensures IsPrefix(a, c)
  {
    assert c[..|a|] == c[..|b|][..|a|];
  }

  /** `s` without its element at index `i`, the others kept in order. */
  function Remove<T(==)>(s: seq<T>, i: nat): (r: seq<T>)
    requires i < |s|
    ensures |r| == |s| - 1
    ensures forall x :: x in r ==> x in s
    ensures NoDups(s) ==> NoDups(r) && s[i] !in r
    ensures forall x :: x in s && x != s[i] ==> x in r
  {
    var r := s[..i] + s[i + 1..];
    assert forall k :: 0 <= k < |r| ==> r[k] == if k < i then s[k] else s[k + 1];
    assert forall k :: 0 <= k < |s| && k != i ==> s[k] == if k < i then r[k] else r[k - 1];
    r
  }
}
