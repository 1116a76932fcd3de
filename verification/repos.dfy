/** Repositories and the three star rankings the page derives from them:
    the pinned list (script.js:117), the top-five list (script.js:161) and
    the summary's top repository (script.js:280). Each is the same stable
    descending sort by `stargazers_count`, cut differently. */
module Repos {
  import opened Optional
  import opened Seqs
  import opened StableSort

  /** The fields of a repository record the core reads. `language` is ""
      where the API gives `null`: both are falsy. */
  datatype Repo = Repo(name: string, stars: int, language: string)

  function Stars(r: Repo): int {
    r.stars
  }

  /** A copy of the repositories sorted by star count, most stars first,
      equal counts keeping their input order. */
  function ByStars(rs: seq<Repo>): (r: seq<Repo>)
    ensures multiset(r) == multiset(rs)
    ensures SortedDesc(r, Stars)
    ensures forall k :: WithKey(r, Stars, k) == WithKey(rs, Stars, k)
  {
    SortDescIsStableSort(rs, Stars);
    SortDescPermutes(rs, Stars);
    SortDesc(rs, Stars)
  }

  /** The `n` most-starred repositories, most stars first: as many as
      there are up to `n`, all taken from `rs`, none left behind that has
      more stars than one taken, and among equal star counts the earliest
      repositories of `rs`, in their input order. */
  function TopByStars(rs: seq<Repo>, n: nat): (r: seq<Repo>)
    ensures |r| == Min(n, |rs|)
    ensures SortedDesc(r, Stars)
    ensures multiset(r) <= multiset(rs)
    ensures forall x, y :: x in r && y in multiset(rs) - multiset(r) ==> y.stars <= x.stars
    ensures forall k :: WithKey(r, Stars, k) <= WithKey(rs, Stars, k)
  {
    var s := ByStars(rs);
    SortedPrefixDominates(s, Stars, Take(s, n));
    forall k ensures WithKey(Take(s, n), Stars, k) <= WithKey(s, Stars, k) {
      WithKeyPrefix(s, Stars, k, Take(s, n));
    }
    Take(s, n)
  }

  /** Two repositories with 5 stars each: the top one is the first. */
  lemma TopByStarsTieExample(rs: seq<Repo>)
    requires rs == [Repo("a", 5, ""), Repo("b", 5, "")]
    ensures TopByStars(rs, 1) == [Repo("a", 5, "")]
  {
    var r := TopByStars(rs, 1);
    assert r[0] in multiset(rs);
    assert r[0].stars == 5;
    assert r[1..] == [];
    assert WithKey(r, Stars, 5) == r;
    assert rs[1..] == [rs[1]] && rs[1..][1..] == [];
    assert WithKey(rs, Stars, 5) == rs;
  }

  /** The pinned list: the first three of the sorted copy. */
  function Pinned(rs: seq<Repo>): seq<Repo> {
    TopByStars(rs, 3)
  }

  /** The repository list: the first five of the sorted copy. */
  function TopFive(rs: seq<Repo>): seq<Repo> {
    TopByStars(rs, 5)
  }

  /** The pinned list is the first three of the top-five list, although
      the page sorts twice to compute them. */
  lemma PinnedIsPrefixOfTopFive(rs: seq<Repo>)
    ensures Pinned(rs) == Take(TopFive(rs), 3)
  {
  }

  /** `sorted[0]`, `undefined` (here `None`) when there are no repositories:
      the first repository, in input order, with the most stars. */
  function TopRepo(rs: seq<Repo>): (top: Option<Repo>)
    ensures top.None? <==> |rs| == 0
    ensures top.Some? ==> exists i :: IsFirstMax(rs, Stars, i) && top.value == rs[i]
  {
    if |rs| == 0 then None
    else
      SortDescHead(rs, Stars);
      Some(ByStars(rs)[0])
  }

  /** Only one position can be the first with the largest key. */
  lemma FirstMaxUnique(rs: seq<Repo>, i: int, j: int)
    requires IsFirstMax(rs, Stars, i) && IsFirstMax(rs, Stars, j)
    ensures i == j
  {
    assert Stars(rs[i]) == Stars(rs[j]);
  }

  /** Conversely, the first repository with the most stars is the top one. */
  lemma TopRepoIsFirstMax(rs: seq<Repo>, i: int)
    requires IsFirstMax(rs, Stars, i)
    ensures TopRepo(rs) == Some(rs[i])
  {
    var k :| IsFirstMax(rs, Stars, k) && TopRepo(rs).value == rs[k];
    FirstMaxUnique(rs, k, i);
  }

  /** A single left-to-right scan that replaces its candidate only on a
      strictly larger star count finds the same top repository as the sort. */
  method TopRepoScan(rs: seq<Repo>) returns (top: Option<Repo>)
    ensures top == TopRepo(rs)
  {
    if |rs| == 0 {
      return None;
    }
    var best := 0;
    var i := 1;
    while i < |rs|
      invariant 1 <= i <= |rs|
      invariant 0 <= best < i
      invariant forall j :: 0 <= j < i ==> rs[j].stars <= rs[best].stars
      invariant forall j :: 0 <= j < best ==> rs[j].stars < rs[best].stars
    {
      if rs[i].stars > rs[best].stars {
        best := i;
      }
      i := i + 1;
    }
    assert IsFirstMax(rs, Stars, best);
    TopRepoIsFirstMax(rs, best);
    top := Some(rs[best]);
  }

  /** Star counts `[10, 50, 50, 3]`: the top repository is the first of the
      two with 50 stars. */
  lemma TopRepoTieExample()
    ensures TopRepo([Repo("a", 10, ""), Repo("b", 50, ""), Repo("c", 50, ""), Repo("d", 3, "")])
         == Some(Repo("b", 50, ""))
  {
    var rs := [Repo("a", 10, ""), Repo("b", 50, ""), Repo("c", 50, ""), Repo("d", 3, "")];
    assert IsFirstMax(rs, Stars, 1);
    TopRepoIsFirstMax(rs, 1);
  }
}
