/** The search history: a most-recently-used list of user names, newest
    first, at most `MaxHistory` long, with no two entries equal ignoring case.
    The list is an explicit value here; reading and writing it through the
    browser's key-value store is left to the caller. */
module History {
  import opened Seqs
  import opened Text

  /** `MAX_HISTORY`. */
  const MaxHistory: nat := 8

  /** The invariant every list the page writes keeps: bounded, no empty
      name, no two names equal ignoring case. */
  predicate WellFormed(h: seq<string>) {
    && |h| <= MaxHistory
    && (forall i :: 0 <= i < |h| ==> h[i] != "")
    && CaseDistinct(h)
  }

  predicate CaseDistinct(h: seq<string>) {
    forall i, j :: 0 <= i < j < |h| ==> !SameIgnoringCase(h[i], h[j])
  }

  /** How many entries equal `u` ignoring case. */
  function CountIgnoringCase(h: seq<string>, u: string): nat
    decreases |h|
  {
    if |h| == 0 then 0
    else (if SameIgnoringCase(h[0], u) then 1 else 0) + CountIgnoringCase(h[1..], u)
  }

  lemma {:induction false} NoMatchCountsZero(h: seq<string>, u: string)
    requires forall x :: x in h ==> !SameIgnoringCase(x, u)
    ensures CountIgnoringCase(h, u) == 0
    decreases |h|
  {
    if |h| > 0 {
      assert h[0] in h;
      assert forall x :: x in h[1..] ==> x in h;
      NoMatchCountsZero(h[1..], u);
    }
  }

  /** The entries that differ from `u` ignoring case, in their order: the
      filter `saveHistory` applies before pushing the new name. */
  function Without(h: seq<string>, u: string): (r: seq<string>)
    ensures IsSubsequence(r, h)
    ensures forall x :: x in r <==> x in h && !SameIgnoringCase(x, u)
    ensures forall x :: multiset(r)[x] == if SameIgnoringCase(x, u) then 0 else multiset(h)[x]
  {
    var keep := x => !SameIgnoringCase(x, u);
    FilterSubsequence(h, keep);
    FilterMembers(h, keep);
    FilterCounts(h, keep);
    Filter(h, keep)
  }

  /** `saveHistory(username)`: a falsy (empty) name leaves the list alone;
      otherwise every entry equal to it ignoring case is dropped, the name
      is put in front and the list is cut to `MaxHistory`. */
  function Save(h: seq<string>, u: string): (r: seq<string>)
    ensures u == "" ==> r == h
    ensures u != "" ==> 0 < |r| <= MaxHistory && r[0] == u
    ensures u != "" ==> CountIgnoringCase(r, u) == 1
    ensures u != "" ==> |r| - 1 == Min(MaxHistory - 1, |Without(h, u)|)
    ensures u != "" ==> forall i :: 1 <= i < |r| ==> r[i] == Without(h, u)[i - 1]
  {
    if u == "" then h
    else
      var kept := Without(h, u);
      var r := Take([u] + kept, MaxHistory);
      assert r == [u] + Take(kept, MaxHistory - 1);
      var rest := Take(kept, MaxHistory - 1);
      assert forall x :: x in rest ==> x in kept;
      NoMatchCountsZero(rest, u);
      assert r[1..] == rest;
      r
  }

  /** `removeHistoryItem(u)`: every entry exactly equal to `u` (case
      matters) is dropped, the others keep their order and number. */
  function Remove(h: seq<string>, u: string): (r: seq<string>)
    ensures u !in r
    ensures IsSubsequence(r, h)
    ensures forall x :: x != u ==> multiset(r)[x] == multiset(h)[x]
  {
    var keep := x => x != u;
    FilterSubsequence(h, keep);
    FilterMembers(h, keep);
    FilterCounts(h, keep);
    Filter(h, keep)
  }

  /** `clearHistory`: the stored list is removed, and reading it back gives
      the empty list whatever was there before. */
  function Clear(h: seq<string>): (r: seq<string>)
    ensures |r| == 0
  {
    []
  }

  /** Removing a name that is not in the list changes nothing. */
  lemma RemoveAbsentIsNoop(h: seq<string>, u: string)
    requires u !in h
    ensures Remove(h, u) == h
  {
    FilterKeepsAll(h, x => x != u);
  }

  /** Removal is exact: an entry differing only in case is kept. */
  lemma RemoveIsCaseSensitive()
    ensures Remove(["Octocat"], "octocat") == ["Octocat"]
  {
    RemoveAbsentIsNoop(["Octocat"], "octocat");
  }

  /** Saving the same name twice in a row is the same as saving it once. */
  lemma SaveIdempotent(h: seq<string>, u: string)
    ensures Save(Save(h, u), u) == Save(h, u)
  {
    if u != "" {
      var once := Save(h, u);
      var rest := once[1..];
      assert once == [u] + rest;
      assert forall x :: x in rest ==> x in Without(h, u);
      FilterKeepsAll(rest, x => !SameIgnoringCase(x, u));
      assert Without(rest, u) == rest;
      assert Without(once, u) == rest by {
        assert once[0] == u && once[1..] == rest;
      }
    }
  }

  /** Saving preserves the history invariant. */
  lemma SavePreservesWellFormed(h: seq<string>, u: string)
    requires WellFormed(h)
    ensures WellFormed(Save(h, u))
  {
    if u != "" {
      var kept := Without(h, u);
      var r := Save(h, u);
      SubsequencePairwise(kept, h, (a, b) => !SameIgnoringCase(a, b));
      SubsequenceMembers(kept, h);
      forall i, j | 0 <= i < j < |r|
        ensures !SameIgnoringCase(r[i], r[j])
      {
        if i == 0 {
          assert r[j] in kept;
          assert SameIgnoringCase(r[j], r[i]) == SameIgnoringCase(r[i], r[j]);
        } else {
          assert r[i] == kept[i - 1] && r[j] == kept[j - 1];
        }
      }
      forall i | 0 <= i < |r|
        ensures r[i] != ""
      {
        if i > 0 {
          assert r[i] == kept[i - 1] && r[i] in h;
        }
      }
    }
  }

  /** Removing preserves the history invariant. */
  lemma RemovePreservesWellFormed(h: seq<string>, u: string)
    requires WellFormed(h)
    ensures WellFormed(Remove(h, u))
  {
    var r := Remove(h, u);
    SubsequencePairwise(r, h, (a, b) => !SameIgnoringCase(a, b));
    SubsequenceMembers(r, h);
    assert forall i :: 0 <= i < |r| ==> r[i] in h;
    assert |r| <= |h| by {
      assert |r| == |multiset(r)| && |h| == |multiset(h)|;
      assert multiset(r) <= multiset(h);
    }
  }

  /** The history after saving each name of `us` in turn, starting from `h`. */
  function SaveAll(h: seq<string>, us: seq<string>): seq<string>
    decreases |us|
  {
    if |us| == 0 then h else Save(SaveAll(h, us[..|us| - 1]), us[|us| - 1])
  }

  /** Saving a name unlike every entry only pushes it on the front. */
  lemma SaveFresh(h: seq<string>, u: string)
    requires u != ""
    requires forall y :: y in h ==> !SameIgnoringCase(y, u)
    ensures Save(h, u) == Take([u] + h, MaxHistory)
  {
    FilterKeepsAll(h, y => !SameIgnoringCase(y, u));
  }

  lemma PushTake(u: string, s: seq<string>)
    ensures Take([u] + Take(s, MaxHistory), MaxHistory) == Take([u] + s, MaxHistory)
  {
  }

  /** None of the names stacked so far is equal to the next one. */
  lemma StackedUnlike(h: seq<string>, us: seq<string>)
    requires |us| > 0
    requires forall i, j :: 0 <= i < j < |us| ==> !SameIgnoringCase(us[i], us[j])
    requires forall i, j :: 0 <= i < |us| && 0 <= j < |h| ==> !SameIgnoringCase(us[i], h[j])
    ensures var x := Take(Reverse(us[..|us| - 1]) + h, MaxHistory);
            forall y :: y in x ==> !SameIgnoringCase(y, us[|us| - 1])
  {
    var n := |us|;
    var front := us[..n - 1];
    var u := us[n - 1];
    var x := Take(Reverse(front) + h, MaxHistory);
    forall y | y in x ensures !SameIgnoringCase(y, u) {
      var k :| 0 <= k < |x| && x[k] == y;
      if k < |front| {
        assert y == us[n - 2 - k];
        assert SameIgnoringCase(u, y) == SameIgnoringCase(y, u);
      } else {
        assert y == h[k - |front|];
      }
    }
  }

  lemma SeqAssoc(a: seq<string>, b: seq<string>, c: seq<string>)
    ensures (a + b) + c == a + (b + c)
  {
  }

  /** Saving names that are non-empty, pairwise different ignoring case and
      unlike every name already in the list stacks them newest first on the
      old list, keeping the first `MaxHistory`. */
  lemma {:induction false} SaveAllDistinct(h: seq<string>, us: seq<string>)
    requires |h| <= MaxHistory
    requires forall i :: 0 <= i < |us| ==> us[i] != ""
    requires forall i, j :: 0 <= i < j < |us| ==> !SameIgnoringCase(us[i], us[j])
    requires forall i, j :: 0 <= i < |us| && 0 <= j < |h| ==> !SameIgnoringCase(us[i], h[j])
    ensures SaveAll(h, us) == Take(Reverse(us) + h, MaxHistory)
    decreases |us|
  {
    if |us| == 0 {
      assert Reverse(us) + h == h;
    } else {
      var front := us[..|us| - 1];
      var u := us[|us| - 1];
      var x := Take(Reverse(front) + h, MaxHistory);
      SaveAllDistinct(h, front);
      assert SaveAll(h, front) == x;
      assert SaveAll(h, us) == Save(x, u);
      StackedUnlike(h, us);
      SaveFresh(x, u);
      var rest := Reverse(front) + h;
      PushTake(u, rest);
      assert Reverse(us) + h == [u] + rest by {
        assert Reverse(us) == [u] + Reverse(front);
        SeqAssoc([u], Reverse(front), h);
      }
    }
  }

  /** Dropping the entries equal to `u` ignoring case keeps a leading run
      of entries unlike `u` in front. */
  lemma {:induction false} WithoutPrefix(x: seq<string>, u: string, m: nat)
    requires m <= |x|
    requires forall i :: 0 <= i < m ==> !SameIgnoringCase(x[i], u)
    ensures |Without(x, u)| >= m
    ensures forall i :: 0 <= i < m ==> Without(x, u)[i] == x[i]
  {
    FilterPrefix(x, y => !SameIgnoringCase(y, u), m);
  }

  /** Saving a name unlike the first `m` entries keeps those entries right
      behind it, as far as the bound allows. */
  lemma {:induction false} SaveKeepsLeading(x: seq<string>, u: string, m: nat)
    requires u != "" && m <= |x|
    requires forall i :: 0 <= i < m ==> !SameIgnoringCase(x[i], u)
    ensures |Save(x, u)| >= Min(m + 1, MaxHistory)
    ensures forall i :: 0 <= i < m && i + 1 < MaxHistory ==> Save(x, u)[i + 1] == x[i]
  {
    WithoutPrefix(x, u, m);
  }

  /** Index bookkeeping for one step of `SaveAllRecent`: if `x` starts
      with the names before the last one, newest first, and `r` is the last
      name followed by the leading run of `x`, then `r` starts with all the
      names, newest first. */
  lemma {:induction false} RecentStep(x: seq<string>, r: seq<string>, us: seq<string>)
    requires |us| > 0
    requires |x| >= Min(|us| - 1, MaxHistory)
    requires x[..Min(|us| - 1, MaxHistory)] == Reverse(us[..|us| - 1])[..Min(|us| - 1, MaxHistory)]
    requires |r| > 0 && r[0] == us[|us| - 1]
    requires |r| >= Min(Min(|us| - 1, MaxHistory) + 1, MaxHistory)
    requires forall i :: 0 <= i < Min(|us| - 1, MaxHistory) && i + 1 < MaxHistory ==> r[i + 1] == x[i]
    ensures |r| >= Min(|us|, MaxHistory)
    ensures r[..Min(|us|, MaxHistory)] == Reverse(us)[..Min(|us|, MaxHistory)]
  {
    var n := |us|;
    var m := Min(n - 1, MaxHistory);
    var k := Min(n, MaxHistory);
    var front := us[..n - 1];
    var rev := Reverse(us);
    var lead := Reverse(front)[..m];
    forall i | 0 <= i < k ensures r[..k][i] == rev[..k][i] {
      if i == 0 {
        assert rev[0] == us[n - 1];
      } else {
        var j := i - 1;
        assert j < m && j + 1 < MaxHistory;
        assert r[i] == x[j];
        assert x[j] == x[..m][j] == lead[j];
        ReverseInit(us, j);
        assert lead[j] == Reverse(front)[j] == rev[i];
      }
    }
  }

  /** Reading all but the last element back to front skips the head of
      the reversed sequence. */
  lemma {:induction false} ReverseInit<T>(s: seq<T>, j: int)
    requires 0 <= j < |s| - 1
    ensures Reverse(s[..|s| - 1])[j] == Reverse(s)[j + 1]
  {
  }

  /** If `x` starts with the names before the last one, newest first, the
      last name is unlike each of those entries. */
  lemma {:induction false} LeadingUnlike(x: seq<string>, us: seq<string>, m: nat)
    requires |us| > 0 && m <= |x| && m <= |us| - 1
    requires forall i, j :: 0 <= i < j < |us| ==> !SameIgnoringCase(us[i], us[j])
    requires x[..m] == Reverse(us[..|us| - 1])[..m]
    ensures forall i :: 0 <= i < m ==> !SameIgnoringCase(x[i], us[|us| - 1])
  {
    forall i | 0 <= i < m ensures !SameIgnoringCase(x[i], us[|us| - 1]) {
      assert x[i] == x[..m][i] == us[|us| - 2 - i];
    }
  }

  /** Whatever the starting list, after saving non-empty names that are
      pairwise different ignoring case, the list starts with the last
      `MaxHistory` of them (or all of them, if fewer), newest first. */
  lemma {:induction false} SaveAllRecent(h: seq<string>, us: seq<string>)
    requires forall i :: 0 <= i < |us| ==> us[i] != ""
    requires forall i, j :: 0 <= i < j < |us| ==> !SameIgnoringCase(us[i], us[j])
    ensures |SaveAll(h, us)| >= Min(|us|, MaxHistory)
    ensures SaveAll(h, us)[..Min(|us|, MaxHistory)] == Reverse(us)[..Min(|us|, MaxHistory)]
    decreases |us|
  {
    if |us| > 0 {
      var n := |us|;
      var front := us[..n - 1];
      var u := us[n - 1];
      SaveAllRecent(h, front);
      var x := SaveAll(h, front);
      var m := Min(n - 1, MaxHistory);
      LeadingUnlike(x, us, m);
      SaveKeepsLeading(x, u, m);
      RecentStep(x, SaveAll(h, us), us);
    }
  }

  /** Saving at least `MaxHistory` non-empty names that are pairwise
      different ignoring case leaves exactly the `MaxHistory` most recent,
      newest first, whatever the list held before. */
  lemma {:induction false} SaveAllKeepsLastEight(h: seq<string>, us: seq<string>)
    requires |us| >= MaxHistory
    requires forall i :: 0 <= i < |us| ==> us[i] != ""
    requires forall i, j :: 0 <= i < j < |us| ==> !SameIgnoringCase(us[i], us[j])
    ensures SaveAll(h, us) == Take(Reverse(us), MaxHistory)
  {
    SaveAllRecent(h, us);
    var r := SaveAll(h, us);
    assert r == Save(SaveAll(h, us[..|us| - 1]), us[|us| - 1]);
    var t := Take(Reverse(us), MaxHistory);
    assert |r| == MaxHistory == |t|;
    assert r == r[..MaxHistory] && t == Reverse(us)[..MaxHistory];
  }
}
