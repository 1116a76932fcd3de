/** Sequence helpers shared by the history list and the rankings: the
    `slice(0, n)` and `filter` calls of the page script, and the
    order-preserving "sub-sequence of" relation their contracts speak of. */
module Seqs {

  function Min(a: int, b: int): int {
    if a < b then a else b
  }

  /** The first `n` elements of `s`, or all of `s` when it is shorter, as
      `s.slice(0, n)` returns them. */
  function Take<T>(s: seq<T>, n: nat): (r: seq<T>)
    ensures |r| == Min(n, |s|)
    ensures forall i :: 0 <= i < |r| ==> r[i] == s[i]
  {
    if n < |s| then s[..n] else s
  }

  /** `a` is what is left of `b` after deleting some of its elements: the
      elements of `a` occur in `b` in the same relative order. */
  predicate IsSubsequence<T(==)>(a: seq<T>, b: seq<T>)
    decreases |b|
  {
    || |a| == 0
    || (&& |b| > 0
        && (|| (a[0] == b[0] && IsSubsequence(a[1..], b[1..]))
            || IsSubsequence(a, b[1..])))
  }

  /** `s.filter(keep)`: the elements of `s` that satisfy `keep`, in order. */
  function Filter<T>(s: seq<T>, keep: T -> bool): (r: seq<T>)
    ensures |r| <= |s|
    decreases |s|
  {
    if |s| == 0 then []
    else (if keep(s[0]) then [s[0]] else []) + Filter(s[1..], keep)
  }

  /** What `filter` keeps, it keeps in order. */
  lemma {:induction false} FilterSubsequence<T>(s: seq<T>, keep: T -> bool)
    ensures IsSubsequence(Filter(s, keep), s)
    decreases |s|
  {
    if |s| > 0 {
      var rest := Filter(s[1..], keep);
      FilterSubsequence(s[1..], keep);
      if keep(s[0]) {
        var r := Filter(s, keep);
        assert r[0] == s[0] && r[1..] == rest;
      } else {
        assert Filter(s, keep) == rest;
      }
    }
  }

  /** `filter` keeps exactly the elements that satisfy `keep`. */
  lemma {:induction false} FilterMembers<T>(s: seq<T>, keep: T -> bool)
    ensures forall x :: x in Filter(s, keep) <==> x in s && keep(x)
    decreases |s|
  {
    if |s| > 0 {
      FilterMembers(s[1..], keep);
      assert forall x :: x in s <==> x == s[0] || x in s[1..];
    }
  }

  /** `filter` keeps every copy of a kept element and none of a dropped one. */
  lemma {:induction false} FilterCounts<T>(s: seq<T>, keep: T -> bool)
    ensures forall x :: multiset(Filter(s, keep))[x] == if keep(x) then multiset(s)[x] else 0
    decreases |s|
  {
    if |s| > 0 {
      FilterCounts(s[1..], keep);
      var head := if keep(s[0]) then [s[0]] else [];
      assert s == [s[0]] + s[1..];
      assert multiset(s) == multiset{s[0]} + multiset(s[1..]);
      assert multiset(Filter(s, keep)) == multiset(head) + multiset(Filter(s[1..], keep));
    }
  }

  /** Filtering a sequence none of whose elements is dropped changes nothing. */
  lemma {:induction false} FilterKeepsAll<T>(s: seq<T>, keep: T -> bool)
    requires forall i :: 0 <= i < |s| ==> keep(s[i])
    ensures Filter(s, keep) == s
    decreases |s|
  {
    if |s| > 0 {
      assert keep(s[0]);
      FilterKeepsAll(s[1..], keep);
      assert s == [s[0]] + s[1..];
    }
  }

  /** Every element of a sub-sequence is an element of the whole. */
  lemma {:induction false} SubsequenceMembers<T>(a: seq<T>, b: seq<T>)
    requires IsSubsequence(a, b)
    ensures forall x :: x in a ==> x in b
    decreases |b|
  {
    if |a| > 0 {
      if a[0] == b[0] && IsSubsequence(a[1..], b[1..]) {
        SubsequenceMembers(a[1..], b[1..]);
        assert forall x :: x in a ==> x == a[0] || x in a[1..];
      } else {
        SubsequenceMembers(a, b[1..]);
      }
    }
  }

  /** A relation that holds between every earlier and later element of `b`
      still holds so in every sub-sequence of `b`. */
  lemma {:induction false} SubsequencePairwise<T>(a: seq<T>, b: seq<T>, rel: (T, T) -> bool)
    requires IsSubsequence(a, b)
    requires forall i, j :: 0 <= i < j < |b| ==> rel(b[i], b[j])
    ensures forall i, j :: 0 <= i < j < |a| ==> rel(a[i], a[j])
    decreases |b|
  {
    if |a| > 0 {
      if a[0] == b[0] && IsSubsequence(a[1..], b[1..]) {
        SubsequencePairwise(a[1..], b[1..], rel);
        SubsequenceMembers(a[1..], b[1..]);
        forall i, j | 0 <= i < j < |a|
          ensures rel(a[i], a[j])
        {
          if i == 0 {
            assert a[j] in b[1..];
            var k :| 0 <= k < |b[1..]| && b[1..][k] == a[j];
            assert rel(b[0], b[k + 1]);
          } else {
            assert a[i] == a[1..][i - 1] && a[j] == a[1..][j - 1];
          }
        }
      } else {
        SubsequencePairwise(a, b[1..], rel);
      }
    }
  }

  /** When the first `m` elements all pass the test, `filter` keeps them
      as its first `m` elements. */
  lemma {:induction false} FilterPrefix<T>(s: seq<T>, keep: T -> bool, m: nat)
    requires m <= |s|
    requires forall i :: 0 <= i < m ==> keep(s[i])
    ensures |Filter(s, keep)| >= m
    ensures forall i :: 0 <= i < m ==> Filter(s, keep)[i] == s[i]
    decreases m
  {
    if m > 0 {
      FilterPrefix(s[1..], keep, m - 1);
      assert Filter(s, keep) == [s[0]] + Filter(s[1..], keep);
    }
  }

  /** `s` read back to front. */
  function Reverse<T>(s: seq<T>): (r: seq<T>)
    ensures |r| == |s|
    ensures forall i :: 0 <= i < |s| ==> r[i] == s[|s| - 1 - i]
    decreases |s|
  {
    if |s| == 0 then [] else [s[|s| - 1]] + Reverse(s[..|s| - 1])
  }
}
