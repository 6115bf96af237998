/**
 * Sequence facts shared by both directories: `Array.prototype.filter`
 * modelled as a pure function, and the order-preserving subsequence
 * relation that characterises it.
 */
module Seqs {

  /** `sub` is `s` with some elements deleted, the rest in their original order. */
  predicate IsSubsequence<T(==,!new)>(sub: seq<T>, s: seq<T>)
    decreases |s|
  {
    if sub == [] then true
    else if s == [] then false
    else (sub[0] == s[0] && IsSubsequence(sub[1..], s[1..])) || IsSubsequence(sub, s[1..])
  }

  /** No element occurs twice. */
  predicate Distinct<T(==,!new)>(s: seq<T>) {
    forall i, j :: 0 <= i < j < |s| ==> s[i] != s[j]
  }

  /**
   * `s.filter(p)`: keeps the elements satisfying `p`, in order, each with
   * its full multiplicity, and drops every other element.
   */
  function Filter<T(==,!new)>(s: seq<T>, p: T -> bool): (r: seq<T>)
    ensures IsSubsequence(r, s)
    ensures forall x :: multiset(r)[x] == if p(x) then multiset(s)[x] else 0
    ensures forall x :: x in r <==> x in s && p(x)
    ensures |r| <= |s|
  {
    if s == [] then []
    else
      assert s == [s[0]] + s[1..];
      if p(s[0]) then [s[0]] + Filter(s[1..], p) else Filter(s[1..], p)
  }

  /** A filter that rejects nothing in `s` returns `s` itself. */
  lemma {:induction false} FilterKeepsAll<T(!new)>(s: seq<T>, p: T -> bool)
    requires forall x :: x in s ==> p(x)
    ensures Filter(s, p) == s
  {
    if s != [] {
      FilterKeepsAll(s[1..], p);
    }
  }

  /** Filtering a filtered sequence again with the same predicate changes nothing. */
  lemma FilterIdempotent<T(!new)>(s: seq<T>, p: T -> bool)
    ensures Filter(Filter(s, p), p) == Filter(s, p)
  {
    FilterKeepsAll(Filter(s, p), p);
  }

  /** A filter that rejects some element of `s` returns a strictly shorter sequence. */
  lemma {:induction false} FilterDropsRejected<T(!new)>(s: seq<T>, p: T -> bool, x: T)
    requires x in s && !p(x)
    ensures |Filter(s, p)| < |s|
  {
    if s[0] != x {
      FilterDropsRejected(s[1..], p, x);
    }
  }

  /** Every sequence is a subsequence of itself. */
  lemma {:induction false} SubsequenceRefl<T(!new)>(s: seq<T>)
    ensures IsSubsequence(s, s)
  {
    if s != [] {
      SubsequenceRefl(s[1..]);
    }
  }

  /** A subsequence never holds more copies of an element than the sequence. */
  lemma {:induction false} SubsequenceMultiset<T(!new)>(sub: seq<T>, s: seq<T>)
    requires IsSubsequence(sub, s)
    ensures multiset(sub) <= multiset(s)
    decreases |s|
  {
    if sub != [] {
      assert s == [s[0]] + s[1..];
      if sub[0] == s[0] && IsSubsequence(sub[1..], s[1..]) {
        SubsequenceMultiset(sub[1..], s[1..]);
        assert sub == [sub[0]] + sub[1..];
      } else {
        SubsequenceMultiset(sub, s[1..]);
      }
    }
  }

  /**
   * `Filter` is the only order-preserving subsequence of `s` that keeps
   * exactly the elements satisfying `p`, each with its full multiplicity.
   */
  lemma {:induction false} FilterUnique<T(!new)>(s: seq<T>, p: T -> bool, r: seq<T>)
    requires IsSubsequence(r, s)
    requires forall x :: multiset(r)[x] == if p(x) then multiset(s)[x] else 0
    ensures r == Filter(s, p)
    decreases |s|
  {
    if s == [] {
      assert multiset(r) == multiset{};
    } else {
      var h := s[0];
      assert s == [h] + s[1..];
      assert multiset(s)[h] > 0;
      if r == [] {
        assert multiset(r)[h] == 0;
        assert !p(h);
        FilterUnique(s[1..], p, r);
      } else if r[0] == h && IsSubsequence(r[1..], s[1..]) {
        assert r == [h] + r[1..];
        assert multiset(r)[h] > 0;
        assert p(h);
        FilterUnique(s[1..], p, r[1..]);
      } else {
        assert IsSubsequence(r, s[1..]);
        SubsequenceMultiset(r, s[1..]);
        assert multiset(r)[h] < multiset(s)[h];
        assert !p(h);
        FilterUnique(s[1..], p, r);
      }
    }
  }
}
