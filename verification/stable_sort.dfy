/** Sorting a copy with a comparator that subtracts keys: a stable sort into
    descending order of an integer key. `Array.prototype.sort` is required to
    be stable since ECMAScript 2019, so the result is fully determined: the
    insertion sort below is one way of computing it, and `StableSortUnique`
    shows that every stable descending sort gives the same sequence. */
module StableSort {

  /** The keys never increase from left to right. */
  predicate SortedDesc<T(!new)>(s: seq<T>, key: T -> int) {
    forall i, j :: 0 <= i < j < |s| ==> key(s[i]) >= key(s[j])
  }

  /** The elements of `s` whose key is `k`, in their order in `s`. */
  function WithKey<T(!new)>(s: seq<T>, key: T -> int, k: int): seq<T>
    decreases |s|
  {
    if |s| == 0 then []
    else (if key(s[0]) == k then [s[0]] else []) + WithKey(s[1..], key, k)
  }

  /** `r` is a stable descending sort of `s`: sorted, and for every key the
      elements carrying it appear in `r` exactly as they do in `s`. */
  ghost predicate IsStableSortDesc<T(!new)>(s: seq<T>, r: seq<T>, key: T -> int) {
    && SortedDesc(r, key)
    && forall k :: WithKey(r, key, k) == WithKey(s, key, k)
  }

  /** Inserts `x` in front of the first element whose key is not greater
      than its own, i.e. after every element that sorts strictly before it. */
  function Insert<T(!new)>(x: T, s: seq<T>, key: T -> int): (r: seq<T>)
    ensures |r| == |s| + 1
    decreases |s|
  {
    if |s| == 0 || key(s[0]) <= key(x) then [x] + s
    else [s[0]] + Insert(x, s[1..], key)
  }

  /** Inserting adds exactly one element, `x`. */
  lemma {:induction false} InsertPermutes<T(!new)>(x: T, s: seq<T>, key: T -> int)
    ensures multiset(Insert(x, s, key)) == multiset(s) + multiset{x}
    decreases |s|
  {
    if |s| > 0 && key(s[0]) > key(x) {
      InsertPermutes(x, s[1..], key);
      assert s == [s[0]] + s[1..];
    }
  }

  lemma InsertMembers<T(!new)>(x: T, s: seq<T>, key: T -> int)
    ensures forall y :: y in Insert(x, s, key) <==> y == x || y in s
  {
    var r := Insert(x, s, key);
    InsertPermutes(x, s, key);
    assert forall y :: y in r <==> y in multiset(r);
    assert forall y :: y in s <==> y in multiset(s);
  }

  /** `WithKey` on a sequence given as head and tail. */
  lemma WithKeyCons<T(!new)>(x: T, s: seq<T>, key: T -> int, k: int)
    ensures WithKey([x] + s, key, k) == (if key(x) == k then [x] else []) + WithKey(s, key, k)
  {
    assert ([x] + s)[0] == x && ([x] + s)[1..] == s;
  }

  /** Inserting into a sorted sequence keeps it sorted. */
  lemma {:induction false} InsertSorted<T(!new)>(x: T, s: seq<T>, key: T -> int)
    requires SortedDesc(s, key)
    ensures SortedDesc(Insert(x, s, key), key)
    decreases |s|
  {
    var r := Insert(x, s, key);
    if |s| == 0 || key(s[0]) <= key(x) {
      forall i, j | 0 <= i < j < |r| ensures key(r[i]) >= key(r[j]) {
        assert r[j] == s[j - 1];
        if i > 0 { assert r[i] == s[i - 1]; }
      }
    } else {
      var rest := Insert(x, s[1..], key);
      InsertSorted(x, s[1..], key);
      InsertMembers(x, s[1..], key);
      forall i, j | 0 <= i < j < |r| ensures key(r[i]) >= key(r[j]) {
        if i == 0 {
          assert r[j] in rest;
          if r[j] != x {
            var m :| 0 <= m < |s[1..]| && s[1..][m] == r[j];
            assert s[m + 1] == r[j];
          }
        } else {
          assert r[i] == rest[i - 1] && r[j] == rest[j - 1];
        }
      }
    }
  }

  /** The stable sort into descending key order. */
  function SortDesc<T(!new)>(s: seq<T>, key: T -> int): (r: seq<T>)
    ensures |r| == |s|
    ensures SortedDesc(r, key)
    decreases |s|
  {
    if |s| == 0 then []
    else
      var rest := SortDesc(s[1..], key);
      InsertSorted(s[0], rest, key);
      Insert(s[0], rest, key)
  }

  /** The sort neither loses nor adds elements. */
  lemma {:induction false} SortDescPermutes<T(!new)>(s: seq<T>, key: T -> int)
    ensures multiset(SortDesc(s, key)) == multiset(s)
    decreases |s|
  {
    if |s| > 0 {
      assert s == [s[0]] + s[1..];
      SortDescPermutes(s[1..], key);
      InsertPermutes(s[0], SortDesc(s[1..], key), key);
    }
  }

  /** Inserting `x` puts it ahead of every element of its own key. */
  lemma {:induction false} InsertWithKey<T(!new)>(x: T, s: seq<T>, key: T -> int, k: int)
    ensures WithKey(Insert(x, s, key), key, k)
         == (if key(x) == k then [x] else []) + WithKey(s, key, k)
    decreases |s|
  {
    if |s| == 0 || key(s[0]) <= key(x) {
      WithKeyCons(x, s, key, k);
    } else {
      var rest := Insert(x, s[1..], key);
      var w := WithKey(s[1..], key, k);
      assert Insert(x, s, key) == [s[0]] + rest;
      WithKeyCons(s[0], rest, key, k);
      InsertWithKey(x, s[1..], key, k);
      assert s == [s[0]] + s[1..];
      WithKeyCons(s[0], s[1..], key, k);
      if key(x) == k {
        assert WithKey(Insert(x, s, key), key, k) == [x] + w;
      } else {
        assert WithKey(Insert(x, s, key), key, k) == WithKey(s, key, k);
      }
    }
  }

  /** The sort is stable: the elements of any one key keep their order. */
  lemma {:induction false} SortDescStable<T(!new)>(s: seq<T>, key: T -> int, k: int)
    ensures WithKey(SortDesc(s, key), key, k) == WithKey(s, key, k)
    decreases |s|
  {
    if |s| > 0 {
      SortDescStable(s[1..], key, k);
      InsertWithKey(s[0], SortDesc(s[1..], key), key, k);
    }
  }

  /** `SortDesc` meets the declarative description of a stable descending sort. */
  lemma SortDescIsStableSort<T(!new)>(s: seq<T>, key: T -> int)
    ensures IsStableSortDesc(s, SortDesc(s, key), key)
  {
    SortDescPermutes(s, key);
    forall k ensures WithKey(SortDesc(s, key), key, k) == WithKey(s, key, k) {
      SortDescStable(s, key, k);
    }
  }

  lemma {:induction false} WithKeyMembers<T(!new)>(s: seq<T>, key: T -> int, k: int)
    ensures forall y :: y in WithKey(s, key, k) <==> y in s && key(y) == k
    decreases |s|
  {
    if |s| > 0 {
      WithKeyMembers(s[1..], key, k);
      assert s == [s[0]] + s[1..];
    }
  }

  /** If `b` holds the elements of `a`'s head key, the head key of the sorted
      `b` is at least as large. */
  lemma HeadKeyBound<T(!new)>(a: seq<T>, b: seq<T>, key: T -> int)
    requires SortedDesc(b, key)
    requires |a| > 0 && |b| > 0
    requires WithKey(a, key, key(a[0])) == WithKey(b, key, key(a[0]))
    ensures key(b[0]) >= key(a[0])
  {
    var k := key(a[0]);
    WithKeyCons(a[0], a[1..], key, k);
    assert a == [a[0]] + a[1..];
    assert a[0] in WithKey(b, key, k);
    WithKeyMembers(b, key, k);
    var i :| 0 <= i < |b| && b[i] == a[0];
    assert key(b[0]) >= key(b[i]);
  }

  /** A sequence that shares the elements of `a`'s head key with `a` is
      not empty. */
  lemma NonEmptyAgree<T(!new)>(a: seq<T>, b: seq<T>, key: T -> int)
    requires |a| > 0
    requires WithKey(a, key, key(a[0])) == WithKey(b, key, key(a[0]))
    ensures |b| > 0
  {
    assert WithKey(a, key, key(a[0]))[0] == a[0];
  }

  /** Two non-empty sorted sequences that agree on the elements of every
      key start with the same element. */
  lemma SameHead<T(!new)>(a: seq<T>, b: seq<T>, key: T -> int)
    requires SortedDesc(a, key) && SortedDesc(b, key)
    requires |a| > 0 && |b| > 0
    requires WithKey(a, key, key(a[0])) == WithKey(b, key, key(a[0]))
    requires WithKey(a, key, key(b[0])) == WithKey(b, key, key(b[0]))
    ensures a[0] == b[0]
  {
    HeadKeyBound(a, b, key);
    HeadKeyBound(b, a, key);
    var wa, wb := WithKey(a, key, key(a[0])), WithKey(b, key, key(a[0]));
    assert wa[0] == a[0];
    assert wb[0] == b[0];
  }

  /** Dropping a common head keeps the per-key agreement. */
  lemma TailsAgree<T(!new)>(a: seq<T>, b: seq<T>, key: T -> int, k: int)
    requires |a| > 0 && |b| > 0 && a[0] == b[0]
    requires WithKey(a, key, k) == WithKey(b, key, k)
    ensures WithKey(a[1..], key, k) == WithKey(b[1..], key, k)
  {
    var wa, wb := WithKey(a, key, k), WithKey(b, key, k);
    if key(a[0]) == k {
      assert wa == [a[0]] + WithKey(a[1..], key, k);
      assert wb == [b[0]] + WithKey(b[1..], key, k);
      assert WithKey(a[1..], key, k) == wa[1..];
      assert WithKey(b[1..], key, k) == wb[1..];
    } else {
      assert wa == WithKey(a[1..], key, k);
      assert wb == WithKey(b[1..], key, k);
    }
  }

  /** Two sequences sorted in descending key order that agree on the
      elements of every key are equal. */
  lemma {:induction false} SortedUnique<T(!new)>(a: seq<T>, b: seq<T>, key: T -> int)
    requires SortedDesc(a, key) && SortedDesc(b, key)
    requires forall k :: WithKey(a, key, k) == WithKey(b, key, k)
    ensures a == b
    decreases |a|
  {
    if |a| > 0 {
      assert WithKey(a, key, key(a[0])) == WithKey(b, key, key(a[0]));
      NonEmptyAgree(a, b, key);
    }
    if |b| > 0 {
      assert WithKey(b, key, key(b[0])) == WithKey(a, key, key(b[0]));
      NonEmptyAgree(b, a, key);
    }
    if |a| > 0 {
      assert WithKey(a, key, key(a[0])) == WithKey(b, key, key(a[0]));
      assert WithKey(a, key, key(b[0])) == WithKey(b, key, key(b[0]));
      SameHead(a, b, key);
      forall k ensures WithKey(a[1..], key, k) == WithKey(b[1..], key, k) {
        TailsAgree(a, b, key, k);
      }
      SortedUnique(a[1..], b[1..], key);
      assert a == [a[0]] + a[1..] && b == [b[0]] + b[1..];
    }
  }

  /** A stable descending sort is unique: whatever algorithm the JavaScript
      engine uses, its result is the one `SortDesc` computes. */
  lemma StableSortUnique<T(!new)>(s: seq<T>, r: seq<T>, key: T -> int)
    requires IsStableSortDesc(s, r, key)
    ensures r == SortDesc(s, key)
  {
    SortDescIsStableSort(s, key);
    SortedUnique(r, SortDesc(s, key), key);
  }

  /** `i` is the first position of `s` that holds a largest key. */
  predicate IsFirstMax<T(!new)>(s: seq<T>, key: T -> int, i: int) {
    && 0 <= i < |s|
    && (forall j :: 0 <= j < |s| ==> key(s[j]) <= key(s[i]))
    && (forall j :: 0 <= j < i ==> key(s[j]) < key(s[i]))
  }

  /** For every key, a prefix of `s` holds a prefix of the elements of `s`
      carrying that key: the earliest of them, in their order. */
  lemma {:induction false} WithKeyPrefix<T(!new)>(s: seq<T>, key: T -> int, k: int, p: seq<T>)
    requires p <= s
    ensures WithKey(p, key, k) <= WithKey(s, key, k)
    decreases |s|
  {
    if |p| > 0 {
      assert p == [p[0]] + p[1..] && s == [s[0]] + s[1..];
      WithKeyCons(p[0], p[1..], key, k);
      WithKeyCons(s[0], s[1..], key, k);
      WithKeyPrefix(s[1..], key, k, p[1..]);
    }
  }

  /** A prefix of a sorted sequence is sorted, comes from it, and holds
      no smaller key than anything it leaves behind. */
  lemma SortedPrefixDominates<T(!new)>(s: seq<T>, key: T -> int, p: seq<T>)
    requires SortedDesc(s, key)
    requires p <= s
    ensures SortedDesc(p, key)
    ensures multiset(p) <= multiset(s)
    ensures forall x, y :: x in p && y in multiset(s) - multiset(p) ==> key(y) <= key(x)
  {
    var k := |p|;
    assert s == p + s[k..];
    assert multiset(s) == multiset(p) + multiset(s[k..]);
    forall x, y | x in p && y in multiset(s) - multiset(p)
      ensures key(y) <= key(x)
    {
      assert y in multiset(s[k..]);
      var i :| 0 <= i < k && p[i] == x;
      var j :| 0 <= j < |s[k..]| && s[k..][j] == y;
      assert s[i] == x && s[k + j] == y;
    }
  }

  /** The head of the sorted sequence is the first element of `s` with the
      largest key. */
  lemma {:induction false} SortDescHead<T(!new)>(s: seq<T>, key: T -> int)
    requires |s| > 0
    ensures exists i :: IsFirstMax(s, key, i) && SortDesc(s, key)[0] == s[i]
    decreases |s|
  {
    if |s| == 1 {
      assert IsFirstMax(s, key, 0);
    } else {
      var t := SortDesc(s[1..], key);
      assert SortDesc(s, key) == Insert(s[0], t, key);
      SortDescHead(s[1..], key);
      var i' :| IsFirstMax(s[1..], key, i') && t[0] == s[1..][i'];
      if key(t[0]) <= key(s[0]) {
        assert Insert(s[0], t, key)[0] == s[0];
        FirstMaxHead(s, key, i');
      } else {
        assert Insert(s[0], t, key)[0] == t[0];
        FirstMaxTail(s, key, i');
      }
    }
  }

  /** The head is the first maximum when it is at least the tail's. */
  lemma FirstMaxHead<T(!new)>(s: seq<T>, key: T -> int, i': int)
    requires |s| > 1 && IsFirstMax(s[1..], key, i') && key(s[1..][i']) <= key(s[0])
    ensures IsFirstMax(s, key, 0)
  {
    forall j | 0 <= j < |s| ensures key(s[j]) <= key(s[0]) {
      if j > 0 { assert s[j] == s[1..][j - 1]; }
    }
  }

  /** Otherwise the tail's first maximum is the whole sequence's. */
  lemma FirstMaxTail<T(!new)>(s: seq<T>, key: T -> int, i': int)
    requires |s| > 1 && IsFirstMax(s[1..], key, i') && key(s[1..][i']) > key(s[0])
    ensures IsFirstMax(s, key, i' + 1) && s[i' + 1] == s[1..][i']
  {
    forall j | 0 <= j < |s| ensures key(s[j]) <= key(s[i' + 1]) {
      if j > 0 { assert s[j] == s[1..][j - 1]; }
    }
    forall j | 0 <= j < i' + 1 ensures key(s[j]) < key(s[i' + 1]) {
      if j > 0 { assert s[j] == s[1..][j - 1]; }
    }
  }

  /** Ordered by descending key, and among equal keys by ascending rank. */
  predicate SortedByKeyThenRank<T(!new)>(s: seq<T>, key: T -> int, rank: T -> int) {
    forall i, j :: 0 <= i < j < |s| ==>
      key(s[i]) > key(s[j]) || (key(s[i]) == key(s[j]) && rank(s[i]) < rank(s[j]))
  }

  /** `x` goes in front: every later element has a key no greater than its
      own and, by assumption, a greater rank. */
  lemma InsertTieOrderFront<T(!new)>(x: T, s: seq<T>, key: T -> int, rank: T -> int)
    requires SortedByKeyThenRank(s, key, rank)
    requires forall y :: y in s ==> rank(x) < rank(y)
    requires |s| == 0 || key(s[0]) <= key(x)
    ensures SortedByKeyThenRank([x] + s, key, rank)
  {
    var r := [x] + s;
    forall i, j | 0 <= i < j < |r|
      ensures key(r[i]) > key(r[j]) || (key(r[i]) == key(r[j]) && rank(r[i]) < rank(r[j]))
    {
      if i == 0 {
        assert r[j] == s[j - 1] && r[j] in s;
        if j > 1 { assert key(s[0]) >= key(s[j - 1]); }
      } else {
        assert r[i] == s[i - 1] && r[j] == s[j - 1];
      }
    }
  }

  /** The head of `s` stays in front of a sorted `rest` made of `x`, whose
      key is smaller, and of later elements of `s`. */
  lemma InsertTieOrderBehind<T(!new)>(x: T, s: seq<T>, rest: seq<T>, key: T -> int, rank: T -> int)
    requires SortedByKeyThenRank(s, key, rank)
    requires |s| > 0 && key(s[0]) > key(x)
    requires SortedByKeyThenRank(rest, key, rank)
    requires forall y :: y in rest ==> y == x || y in s[1..]
    ensures SortedByKeyThenRank([s[0]] + rest, key, rank)
  {
    var r := [s[0]] + rest;
    forall i, j | 0 <= i < j < |r|
      ensures key(r[i]) > key(r[j]) || (key(r[i]) == key(r[j]) && rank(r[i]) < rank(r[j]))
    {
      if i == 0 {
        assert r[j] == rest[j - 1];
        assert r[j] in rest;
        if r[j] != x {
          assert r[j] in s[1..];
          var m :| 0 <= m < |s[1..]| && s[1..][m] == r[j];
          assert s[m + 1] == r[j];
        }
      } else {
        assert r[i] == rest[i - 1] && r[j] == rest[j - 1];
      }
    }
  }

  lemma {:induction false} InsertTieOrder<T(!new)>(x: T, s: seq<T>, key: T -> int, rank: T -> int)
    requires SortedByKeyThenRank(s, key, rank)
    requires forall y :: y in s ==> rank(x) < rank(y)
    ensures SortedByKeyThenRank(Insert(x, s, key), key, rank)
    decreases |s|
  {
    if |s| == 0 || key(s[0]) <= key(x) {
      InsertTieOrderFront(x, s, key, rank);
    } else {
      var rest := Insert(x, s[1..], key);
      assert SortedByKeyThenRank(s[1..], key, rank) by {
        forall i, j | 0 <= i < j < |s[1..]|
          ensures key(s[1..][i]) > key(s[1..][j]) || (key(s[1..][i]) == key(s[1..][j]) && rank(s[1..][i]) < rank(s[1..][j]))
        {
          assert s[1..][i] == s[i + 1] && s[1..][j] == s[j + 1];
        }
      }
      assert forall y :: y in s[1..] ==> y in s;
      InsertTieOrder(x, s[1..], key, rank);
      InsertMembers(x, s[1..], key);
      InsertTieOrderBehind(x, s, rest, key, rank);
    }
  }

  /** When the input is in ascending rank order, elements with equal keys
      come out of the sort still in ascending rank order. */
  lemma {:induction false} SortDescTieOrder<T(!new)>(s: seq<T>, key: T -> int, rank: T -> int)
    requires forall i, j :: 0 <= i < j < |s| ==> rank(s[i]) < rank(s[j])
    ensures SortedByKeyThenRank(SortDesc(s, key), key, rank)
    decreases |s|
  {
    if |s| > 0 {
      var t := SortDesc(s[1..], key);
      SortDescTieOrder(s[1..], key, rank);
      SortDescPermutes(s[1..], key);
      forall y | y in t ensures rank(s[0]) < rank(y) {
        assert y in multiset(t);
        assert y in multiset(s[1..]);
        var m :| 0 <= m < |s[1..]| && s[1..][m] == y;
        assert s[m + 1] == y;
      }
      InsertTieOrder(s[0], t, key, rank);
    }
  }
}
