/**
 * The order JavaScript's default `Array.prototype.sort` puts strings in:
 * lexicographic on UTF-16 code units. With `char` a Unicode scalar value,
 * that is lexicographic on characters ranked by their UTF-16 encoding:
 * characters encoded as a surrogate pair (above U+FFFF) sort after
 * U+D7FF but before U+E000.
 */
module StringOrder {
  import opened Seqs

  /** Position of `c` in UTF-16 code unit order. */
  function CodeUnitRank(c: char): int {
    var v := c as int;
    if v < 0xD800 then v
    else if v >= 0x1_0000 then v - 0x1_0000 + 0xD800
    else v + 0x10_0000
  }

  lemma RankInjective(c: char, d: char)
    requires c != d
    ensures CodeUnitRank(c) != CodeUnitRank(d)
  {
  }

  /** `a < b` in JavaScript string comparison. */
  predicate StrLess(a: string, b: string) {
    if a == [] then b != []
    else if b == [] then false
    else if a[0] != b[0] then CodeUnitRank(a[0]) < CodeUnitRank(b[0])
    else StrLess(a[1..], b[1..])
  }

  lemma {:induction false} StrLessIrreflexive(a: string)
    ensures !StrLess(a, a)
  {
    if a != [] {
      StrLessIrreflexive(a[1..]);
    }
  }

  lemma {:induction false} StrLessTransitive(a: string, b: string, c: string)
    requires StrLess(a, b) && StrLess(b, c)
    ensures StrLess(a, c)
  {
    if a != [] && a[0] == b[0] && b[0] == c[0] {
      StrLessTransitive(a[1..], b[1..], c[1..]);
    }
  }

  lemma {:induction false} StrLessTotal(a: string, b: string)
    requires a != b
    ensures StrLess(a, b) || StrLess(b, a)
  {
    if a != [] && b != [] {
      if a[0] == b[0] {
        assert a == [a[0]] + a[1..] && b == [b[0]] + b[1..];
        StrLessTotal(a[1..], b[1..]);
      } else {
        RankInjective(a[0], b[0]);
      }
    }
  }

  lemma StrLessAsymmetric(a: string, b: string)
    requires StrLess(a, b)
    ensures !StrLess(b, a)
  {
    if StrLess(b, a) {
      StrLessTransitive(a, b, a);
      StrLessIrreflexive(a);
    }
  }

  /** Ascending in JavaScript string order, with no string twice. */
  predicate StrictlySorted(s: seq<string>) {
    forall i, j :: 0 <= i < j < |s| ==> StrLess(s[i], s[j])
  }

  lemma SortedDistinct(s: seq<string>)
    requires StrictlySorted(s)
    ensures Distinct(s)
  {
    forall i, j | 0 <= i < j < |s| ensures s[i] != s[j] {
      StrLessIrreflexive(s[i]);
    }
  }

  lemma SortedCons(h: string, s: seq<string>)
    requires StrictlySorted(s)
    requires forall y :: y in s ==> StrLess(h, y)
    ensures StrictlySorted([h] + s)
  {
    var r := [h] + s;
    forall i, j | 0 <= i < j < |r| ensures StrLess(r[i], r[j]) {
      if i > 0 {
        assert r[i] == s[i - 1] && r[j] == s[j - 1];
      } else {
        assert r[j] in s;
      }
    }
  }

  /** Inserts `x` into a strictly sorted sequence, leaving it unchanged when `x` is already there. */
  function InsertSorted(x: string, s: seq<string>): (r: seq<string>)
    requires StrictlySorted(s)
    ensures StrictlySorted(r)
    ensures forall y :: y in r <==> y == x || y in s
  {
    if s == [] then [x]
    else if x == s[0] then s
    else if StrLess(x, s[0]) then
      assert forall y :: y in s ==> StrLess(x, y) by {
        forall y | y in s ensures StrLess(x, y) {
          if y != s[0] {
            var j :| 0 < j < |s| && s[j] == y;
            StrLessTransitive(x, s[0], y);
          }
        }
      }
      SortedCons(x, s);
      [x] + s
    else
      var r := InsertSorted(x, s[1..]);
      assert forall y :: y in r ==> StrLess(s[0], y) by {
        StrLessTotal(x, s[0]);
        forall y | y in r ensures StrLess(s[0], y) {
          if y != x {
            var j :| 0 <= j < |s[1..]| && s[1..][j] == y;
            assert s[j + 1] == y;
          }
        }
      }
      SortedCons(s[0], r);
      assert s == [s[0]] + s[1..];
      [s[0]] + r
  }

  /**
   * The distinct strings of `xs` in ascending order: `[...new Set(xs)].sort()`.
   * `SortedUnique` shows this is the one sequence with that description,
   * whatever order the elements are inserted in.
   */
  function SortedSet(xs: seq<string>): (r: seq<string>)
    ensures StrictlySorted(r)
    ensures forall y :: y in r <==> y in xs
  {
    if xs == [] then []
    else
      assert xs == [xs[0]] + xs[1..];
      InsertSorted(xs[0], SortedSet(xs[1..]))
  }

  /** Two strictly sorted sequences holding the same strings are equal. */
  lemma {:induction false} SortedUnique(a: seq<string>, b: seq<string>)
    requires StrictlySorted(a) && StrictlySorted(b)
    requires forall y :: y in a <==> y in b
    ensures a == b
  {
    assert a != [] ==> a[0] in a;
    assert b != [] ==> b[0] in b;
    if a != [] && b != [] {
      if a[0] != b[0] {
        var i :| 0 <= i < |a| && a[i] == b[0];
        var j :| 0 <= j < |b| && b[j] == a[0];
        assert i > 0 && j > 0;
        assert StrLess(a[0], a[i]) && StrLess(b[0], b[j]);
        StrLessAsymmetric(a[0], b[0]);
      }
      forall y ensures y in a[1..] <==> y in b[1..] {
        SortedTail(a, y);
        SortedTail(b, y);
      }
      SortedUnique(a[1..], b[1..]);
    }
  }

  lemma SortedTail(s: seq<string>, y: string)
    requires StrictlySorted(s) && s != []
    ensures y in s[1..] <==> y in s && y != s[0]
  {
    if y in s[1..] {
      var j :| 0 <= j < |s[1..]| && s[1..][j] == y;
      StrLessIrreflexive(s[0]);
      assert StrLess(s[0], s[j + 1]);
    }
    if y in s && y != s[0] {
      var j :| 0 <= j < |s| && s[j] == y;
      assert s[1..][j - 1] == y;
    }
  }
}
