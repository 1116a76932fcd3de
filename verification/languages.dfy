/** `topLanguages(repos, n)`: count the non-empty `language` values in an
    object whose keys keep insertion order, sort its entries by count,
    descending and stably, and keep the first `n` names. */
module Languages {
  import opened Seqs
  import opened StableSort
  import opened Repos

  /** One entry of the `counts` object: a language and how many
      repositories name it. */
  datatype Tallied = Tallied(language: string, count: int)

  function CountOf(e: Tallied): int {
    e.count
  }

  /** The language names of the entries, in order. */
  function Names(t: seq<Tallied>): (r: seq<string>)
    ensures |r| == |t|
    ensures forall i :: 0 <= i < |t| ==> r[i] == t[i].language
  {
    seq(|t|, i requires 0 <= i < |t| => t[i].language)
  }

  /** How many repositories have language `lang`. */
  function Occurrences(rs: seq<Repo>, lang: string): nat
    decreases |rs|
  {
    if |rs| == 0 then 0
    else (if rs[0].language == lang then 1 else 0) + Occurrences(rs[1..], lang)
  }

  /** The position of the first repository with language `lang`, or `|rs|`
      when there is none. */
  function FirstIndex(rs: seq<Repo>, lang: string): (r: nat)
    ensures r <= |rs|
    ensures r < |rs| ==> rs[r].language == lang
    ensures forall j :: 0 <= j < r ==> rs[j].language != lang
    decreases |rs|
  {
    if |rs| == 0 then 0
    else if rs[0].language == lang then 0
    else 1 + FirstIndex(rs[1..], lang)
  }

  lemma {:induction false} OccursIffFirstIndex(rs: seq<Repo>, lang: string)
    ensures Occurrences(rs, lang) > 0 <==> FirstIndex(rs, lang) < |rs|
    decreases |rs|
  {
    if |rs| > 0 {
      OccursIffFirstIndex(rs[1..], lang);
    }
  }

  lemma {:induction false} OccurrencesSnoc(rs: seq<Repo>, x: Repo, lang: string)
    ensures Occurrences(rs + [x], lang) == Occurrences(rs, lang) + (if x.language == lang then 1 else 0)
    decreases |rs|
  {
    if |rs| > 0 {
      assert (rs + [x])[1..] == rs[1..] + [x];
      OccurrencesSnoc(rs[1..], x, lang);
    } else {
      assert rs + [x] == [x];
    }
  }

  lemma {:induction false} FirstIndexSnoc(rs: seq<Repo>, x: Repo, lang: string)
    ensures FirstIndex(rs + [x], lang)
         == if FirstIndex(rs, lang) < |rs| then FirstIndex(rs, lang)
            else if x.language == lang then |rs| else |rs| + 1
    decreases |rs|
  {
    if |rs| > 0 {
      assert (rs + [x])[1..] == rs[1..] + [x];
      FirstIndexSnoc(rs[1..], x, lang);
    } else {
      assert rs + [x] == [x];
    }
  }

  /** Counting one more repository in `lang`: its count goes up by one,
      starting from 0 when it has none yet, on a table whose entries keep
      the order in which their languages were first counted. */
  function Bump(t: seq<Tallied>, lang: string): seq<Tallied>
    decreases |t|
  {
    if |t| == 0 then [Tallied(lang, 1)]
    else if t[0].language == lang then [Tallied(lang, t[0].count + 1)] + t[1..]
    else [t[0]] + Bump(t[1..], lang)
  }

  lemma {:induction false} BumpPresent(t: seq<Tallied>, lang: string)
    requires lang in Names(t)
    requires forall i, j :: 0 <= i < j < |t| ==> t[i].language != t[j].language
    ensures |Bump(t, lang)| == |t|
    ensures forall i :: 0 <= i < |t| ==> Bump(t, lang)[i].language == t[i].language
    ensures forall i :: 0 <= i < |t| ==>
              Bump(t, lang)[i].count == t[i].count + (if t[i].language == lang then 1 else 0)
    decreases |t|
  {
    if t[0].language != lang {
      assert lang in Names(t[1..]) by {
        var i :| 0 <= i < |t| && Names(t)[i] == lang;
        assert i > 0 && Names(t[1..])[i - 1] == lang;
      }
      BumpPresent(t[1..], lang);
    }
  }

  lemma {:induction false} BumpAbsent(t: seq<Tallied>, lang: string)
    requires lang !in Names(t)
    ensures Bump(t, lang) == t + [Tallied(lang, 1)]
    decreases |t|
  {
    if |t| > 0 {
      assert t[0].language == Names(t)[0];
      assert lang !in Names(t[1..]) by {
        forall i | 0 <= i < |t| - 1 ensures Names(t[1..])[i] != lang {
          assert Names(t[1..])[i] == Names(t)[i + 1];
        }
      }
      BumpAbsent(t[1..], lang);
      assert t == [t[0]] + t[1..];
    }
  }

  /** The counts of `rs` in first-seen order: `forEach` over the
      repositories, skipping a falsy language. */
  function Tally(rs: seq<Repo>): seq<Tallied>
    decreases |rs|
  {
    if |rs| == 0 then []
    else
      var t := Tally(rs[..|rs| - 1]);
      var lang := rs[|rs| - 1].language;
      if lang == "" then t else Bump(t, lang)
  }

  /** `t` is the frequency table of `rs`: one entry per non-empty language
      that occurs, carrying its number of occurrences, in the order the
      languages are first met. */
  ghost predicate Tabulates(rs: seq<Repo>, t: seq<Tallied>) {
    && (forall i :: 0 <= i < |t| ==>
          t[i].language != "" && t[i].count == Occurrences(rs, t[i].language) && t[i].count > 0)
    && (forall lang :: lang != "" && Occurrences(rs, lang) > 0 ==> lang in Names(t))
    && (forall i, j :: 0 <= i < j < |t| ==>
          FirstIndex(rs, t[i].language) < FirstIndex(rs, t[j].language))
  }

  /** A repository without a language leaves the table as it was. */
  lemma TallyStepSkip(rs: seq<Repo>, x: Repo, t: seq<Tallied>)
    requires Tabulates(rs, t)
    requires x.language == ""
    ensures Tabulates(rs + [x], t)
  {
    forall lang ensures Occurrences(rs + [x], lang) == Occurrences(rs, lang) + (if x.language == lang then 1 else 0) {
      OccurrencesSnoc(rs, x, lang);
    }
    forall i | 0 <= i < |t|
      ensures FirstIndex(rs + [x], t[i].language) == FirstIndex(rs, t[i].language)
    {
      OccursIffFirstIndex(rs, t[i].language);
      FirstIndexSnoc(rs, x, t[i].language);
    }
  }

  /** A language already in the table gets its count raised by one. */
  lemma TallyStepSeen(rs: seq<Repo>, x: Repo, t: seq<Tallied>)
    requires Tabulates(rs, t)
    requires x.language != "" && x.language in Names(t)
    ensures Tabulates(rs + [x], Bump(t, x.language))
  {
    var b := Bump(t, x.language);
    assert forall i, j :: 0 <= i < j < |t| ==> t[i].language != t[j].language;
    BumpPresent(t, x.language);
    assert Names(b) == Names(t);
    forall lang ensures Occurrences(rs + [x], lang) == Occurrences(rs, lang) + (if x.language == lang then 1 else 0) {
      OccurrencesSnoc(rs, x, lang);
    }
    forall i | 0 <= i < |t|
      ensures FirstIndex(rs + [x], t[i].language) == FirstIndex(rs, t[i].language)
    {
      OccursIffFirstIndex(rs, t[i].language);
      FirstIndexSnoc(rs, x, t[i].language);
    }
  }

  /** A language met for the first time is appended with count one. */
  lemma TallyStepNew(rs: seq<Repo>, x: Repo, t: seq<Tallied>)
    requires Tabulates(rs, t)
    requires x.language != "" && x.language !in Names(t)
    ensures Tabulates(rs + [x], Bump(t, x.language))
  {
    BumpAbsent(t, x.language);
    TallyStepNewCounts(rs, x, t);
    TallyStepNewComplete(rs, x, t);
    TallyStepNewOrder(rs, x, t);
  }

  lemma TallyStepNewCounts(rs: seq<Repo>, x: Repo, t: seq<Tallied>)
    requires Tabulates(rs, t)
    requires x.language != "" && x.language !in Names(t)
    ensures var b := t + [Tallied(x.language, 1)];
            forall i :: 0 <= i < |b| ==>
              b[i].language != "" && b[i].count == Occurrences(rs + [x], b[i].language) && b[i].count > 0
  {
    var lang := x.language;
    var b := t + [Tallied(lang, 1)];
    assert Occurrences(rs, lang) == 0;
    forall i | 0 <= i < |b|
      ensures b[i].language != "" && b[i].count == Occurrences(rs + [x], b[i].language) && b[i].count > 0
    {
      OccurrencesSnoc(rs, x, b[i].language);
      if i < |t| {
        assert b[i] == t[i];
        assert t[i].language != lang by { assert Names(t)[i] == t[i].language; }
      }
    }
  }

  lemma TallyStepNewComplete(rs: seq<Repo>, x: Repo, t: seq<Tallied>)
    requires Tabulates(rs, t)
    requires x.language != "" && x.language !in Names(t)
    ensures forall l :: l != "" && Occurrences(rs + [x], l) > 0 ==> l in Names(t + [Tallied(x.language, 1)])
  {
    var b := t + [Tallied(x.language, 1)];
    forall l | l != "" && Occurrences(rs + [x], l) > 0 ensures l in Names(b) {
      OccurrencesSnoc(rs, x, l);
      if l == x.language {
        assert Names(b)[|t|] == l;
      } else {
        var i :| 0 <= i < |t| && Names(t)[i] == l;
        assert Names(b)[i] == l;
      }
    }
  }

  lemma TallyStepNewOrder(rs: seq<Repo>, x: Repo, t: seq<Tallied>)
    requires Tabulates(rs, t)
    requires x.language != "" && x.language !in Names(t)
    ensures var b := t + [Tallied(x.language, 1)];
            forall i, j :: 0 <= i < j < |b| ==>
              FirstIndex(rs + [x], b[i].language) < FirstIndex(rs + [x], b[j].language)
  {
    var lang := x.language;
    var b := t + [Tallied(lang, 1)];
    assert Occurrences(rs, lang) == 0;
    OccursIffFirstIndex(rs, lang);
    FirstIndexSnoc(rs, x, lang);
    forall i | 0 <= i < |t|
      ensures FirstIndex(rs + [x], t[i].language) == FirstIndex(rs, t[i].language) < |rs|
    {
      OccursIffFirstIndex(rs, t[i].language);
      FirstIndexSnoc(rs, x, t[i].language);
    }
    forall i, j | 0 <= i < j < |b|
      ensures FirstIndex(rs + [x], b[i].language) < FirstIndex(rs + [x], b[j].language)
    {
      assert b[i] == t[i];
      if j < |t| {
        assert b[j] == t[j];
      }
    }
  }

  /** `Tally` builds the frequency table of its input. */
  lemma {:induction false} TallyTabulates(rs: seq<Repo>)
    ensures Tabulates(rs, Tally(rs))
    decreases |rs|
  {
    if |rs| > 0 {
      var front := rs[..|rs| - 1];
      var x := rs[|rs| - 1];
      TallyTabulates(front);
      assert rs == front + [x];
      if x.language == "" {
        TallyStepSkip(front, x, Tally(front));
      } else if x.language in Names(Tally(front)) {
        TallyStepSeen(front, x, Tally(front));
      } else {
        TallyStepNew(front, x, Tally(front));
      }
    }
  }

  /** Language `a` is ranked before language `b`: more repositories use it,
      or as many and it was met first. */
  ghost predicate Outranks(rs: seq<Repo>, a: string, b: string) {
    || Occurrences(rs, a) > Occurrences(rs, b)
    || (Occurrences(rs, a) == Occurrences(rs, b) && FirstIndex(rs, a) < FirstIndex(rs, b))
  }

  /** The table's entries sorted by count, highest first, equal counts
      keeping their first-seen order. */
  function SortedTally(rs: seq<Repo>): seq<Tallied> {
    SortDesc(Tally(rs), CountOf)
  }

  /** Sorting the table neither adds nor drops an entry. */
  lemma SortedTallyMembers(rs: seq<Repo>)
    ensures forall e :: e in SortedTally(rs) <==> e in Tally(rs)
  {
    var t := Tally(rs);
    var s := SortedTally(rs);
    SortDescPermutes(t, CountOf);
    assert forall e :: e in s <==> e in multiset(s);
    assert forall e :: e in t <==> e in multiset(t);
  }

  /** Every entry of the sorted table names an occurring language and
      carries its number of occurrences. */
  lemma SortedTallyEntries(rs: seq<Repo>)
    ensures var s := SortedTally(rs);
            forall i :: 0 <= i < |s| ==>
              s[i].language != "" && s[i].count == Occurrences(rs, s[i].language) && s[i].count > 0
  {
    var s := SortedTally(rs);
    TallyTabulates(rs);
    SortedTallyMembers(rs);
    forall i | 0 <= i < |s|
      ensures s[i].language != "" && s[i].count == Occurrences(rs, s[i].language) && s[i].count > 0
    {
      assert s[i] in Tally(rs);
    }
  }

  /** Every occurring language has an entry in the sorted table. */
  lemma SortedTallyComplete(rs: seq<Repo>)
    ensures forall lang :: lang != "" && Occurrences(rs, lang) > 0 ==> lang in Names(SortedTally(rs))
  {
    var t := Tally(rs);
    var s := SortedTally(rs);
    TallyTabulates(rs);
    SortedTallyMembers(rs);
    forall lang | lang != "" && Occurrences(rs, lang) > 0 ensures lang in Names(s) {
      var i :| 0 <= i < |t| && Names(t)[i] == lang;
      assert t[i] in s;
      var j :| 0 <= j < |s| && s[j] == t[i];
      assert Names(s)[j] == lang;
    }
  }

  /** Each entry of the sorted table outranks every later one. */
  lemma SortedTallyRanked(rs: seq<Repo>)
    ensures var s := SortedTally(rs);
            forall i, j :: 0 <= i < j < |s| ==> Outranks(rs, s[i].language, s[j].language)
  {
    var t := Tally(rs);
    TallyTabulates(rs);
    var rank := (e: Tallied) => FirstIndex(rs, e.language);
    SortDescTieOrder(t, CountOf, rank);
    SortedTallyEntries(rs);
  }

  /** The frequency table sorted by count lists every language, each ranked
      before all that follow it. */
  lemma RankedTally(rs: seq<Repo>)
    ensures var s := SortedTally(rs);
            && (forall i :: 0 <= i < |s| ==> s[i].language != "" && Occurrences(rs, s[i].language) > 0)
            && (forall i, j :: 0 <= i < j < |s| ==> Outranks(rs, s[i].language, s[j].language))
            && (forall lang :: lang != "" && Occurrences(rs, lang) > 0 ==> lang in Names(s))
  {
    SortedTallyEntries(rs);
    SortedTallyRanked(rs);
    SortedTallyComplete(rs);
  }

  /** `topLanguages(repos, n)`. */
  function TopLanguages(rs: seq<Repo>, n: nat): (r: seq<string>)
    ensures |r| <= n
  {
    Names(Take(SortedTally(rs), n))
  }

  /** `topLanguages(repos, n)` gives at most `n` names, each a language that
      occurs, each ranked before the next (so no name twice), and leaves no
      language out unless `n` names ranked before it were kept. */
  lemma TopLanguagesRanked(rs: seq<Repo>, n: nat)
    ensures var r := TopLanguages(rs, n);
            && (forall i :: 0 <= i < |r| ==> r[i] != "" && Occurrences(rs, r[i]) > 0)
            && (forall i, j :: 0 <= i < j < |r| ==> Outranks(rs, r[i], r[j]) && r[i] != r[j])
            && (forall lang :: lang != "" && Occurrences(rs, lang) > 0 && lang !in r ==>
                  |r| == n && forall i :: 0 <= i < |r| ==> Outranks(rs, r[i], lang))
  {
    var s := SortedTally(rs);
    RankedTally(rs);
    var r := TopLanguages(rs, n);
    forall i | 0 <= i < |r| ensures r[i] == s[i].language && r[i] != "" && Occurrences(rs, r[i]) > 0 {
      assert Take(s, n)[i] == s[i];
    }
    forall lang | lang != "" && Occurrences(rs, lang) > 0 && lang !in r
      ensures |r| == n && forall i :: 0 <= i < |r| ==> Outranks(rs, r[i], lang)
    {
      var p :| 0 <= p < |s| && Names(s)[p] == lang;
      assert p >= |r|;
    }
  }

  lemma TallySnoc(rs: seq<Repo>, x: Repo)
    ensures Tally(rs + [x]) == if x.language == "" then Tally(rs) else Bump(Tally(rs), x.language)
  {
    assert (rs + [x])[..|rs|] == rs;
  }

  lemma TallyExample(a: Repo, b: Repo, c: Repo, d: Repo, e: Repo, f: Repo)
    requires a.language == b.language == "Go" && c.language == "Rust"
    requires d.language == e.language == f.language == "Python"
    ensures Tally([a, b, c, d, e, f]) == [Tallied("Go", 2), Tallied("Rust", 1), Tallied("Python", 3)]
  {
    TallySnoc([], a);
    assert [] + [a] == [a];
    assert Tally([a]) == [Tallied("Go", 1)];
    TallySnoc([a], b);
    assert [a] + [b] == [a, b];
    assert Tally([a, b]) == [Tallied("Go", 2)];
    TallySnoc([a, b], c);
    assert [a, b] + [c] == [a, b, c];
    assert Tally([a, b, c]) == [Tallied("Go", 2), Tallied("Rust", 1)];
    TallyExampleTail(a, b, c, d, e, f);
  }

  lemma TallyExampleTail(a: Repo, b: Repo, c: Repo, d: Repo, e: Repo, f: Repo)
    requires Tally([a, b, c]) == [Tallied("Go", 2), Tallied("Rust", 1)]
    requires d.language == e.language == f.language == "Python"
    ensures Tally([a, b, c, d, e, f]) == [Tallied("Go", 2), Tallied("Rust", 1), Tallied("Python", 3)]
  {
    TallySnoc([a, b, c], d);
    var t3 := [Tallied("Go", 2), Tallied("Rust", 1)];
    assert Names(t3) == ["Go", "Rust"];
    BumpAbsent(t3, "Python");
    assert [a, b, c] + [d] == [a, b, c, d];
    assert Tally([a, b, c, d]) == [Tallied("Go", 2), Tallied("Rust", 1), Tallied("Python", 1)];
    TallySnoc([a, b, c, d], e);
    var t4 := [Tallied("Go", 2), Tallied("Rust", 1), Tallied("Python", 1)];
    assert t4[1..] == [Tallied("Rust", 1), Tallied("Python", 1)];
    assert t4[1..][1..] == [Tallied("Python", 1)];
    assert [a, b, c, d] + [e] == [a, b, c, d, e];
    assert Tally([a, b, c, d, e]) == [Tallied("Go", 2), Tallied("Rust", 1), Tallied("Python", 2)];
    TallySnoc([a, b, c, d, e], f);
    var t5 := [Tallied("Go", 2), Tallied("Rust", 1), Tallied("Python", 2)];
    assert t5[1..] == [Tallied("Rust", 1), Tallied("Python", 2)];
    assert t5[1..][1..] == [Tallied("Python", 2)];
    assert [a, b, c, d, e] + [f] == [a, b, c, d, e, f];
  }

  lemma SortTwoExample(rust: Tallied, python: Tallied)
    requires rust == Tallied("Rust", 1) && python == Tallied("Python", 3)
    ensures SortDesc([rust, python], CountOf) == [python, rust]
  {
    var s := [rust, python];
    assert s[1..] == [python];
    assert SortDesc([python], CountOf) == [python];
    assert [python][1..] == [];
    assert Insert(rust, [python], CountOf) == [python] + Insert(rust, [], CountOf);
  }

  lemma SortExample(go: Tallied, rust: Tallied, python: Tallied)
    requires go == Tallied("Go", 2) && rust == Tallied("Rust", 1) && python == Tallied("Python", 3)
    ensures SortDesc([go, rust, python], CountOf) == [python, go, rust]
  {
    var s := [go, rust, python];
    assert s[1..] == [rust, python];
    SortTwoExample(rust, python);
    assert [python, rust][1..] == [rust];
    assert Insert(go, [python, rust], CountOf) == [python] + Insert(go, [rust], CountOf);
  }

  /** Whatever the repositories, a table Go 2, Rust 1, Python 3 ranks the
      three as Python, Go, Rust. */
  lemma TopLanguagesOfTally(rs: seq<Repo>)
    requires Tally(rs) == [Tallied("Go", 2), Tallied("Rust", 1), Tallied("Python", 3)]
    ensures TopLanguages(rs, 3) == ["Python", "Go", "Rust"]
  {
    var go, rust, python := Tallied("Go", 2), Tallied("Rust", 1), Tallied("Python", 3);
    SortExample(go, rust, python);
    var sorted := [python, go, rust];
    assert SortedTally(rs) == sorted;
    assert Take(sorted, 3) == sorted;
    NamesExample(sorted);
  }

  lemma NamesExample(t: seq<Tallied>)
    requires t == [Tallied("Python", 3), Tallied("Go", 2), Tallied("Rust", 1)]
    ensures Names(t) == ["Python", "Go", "Rust"]
  {
    var r := Names(t);
    assert r[0] == "Python" && r[1] == "Go" && r[2] == "Rust";
  }

  /** Languages Go, Go, Rust, Python, Python, Python: the table is met in the
      order Go, Rust, Python, and sorting by count gives Python, Go, Rust. */
  lemma TopLanguagesExample(rs: seq<Repo>)
    requires rs == [Repo("a", 0, "Go"), Repo("b", 0, "Go"), Repo("c", 0, "Rust"),
                    Repo("d", 0, "Python"), Repo("e", 0, "Python"), Repo("f", 0, "Python")]
    ensures TopLanguages(rs, 3) == ["Python", "Go", "Rust"]
  {
    TallyExample(rs[0], rs[1], rs[2], rs[3], rs[4], rs[5]);
    assert rs == [rs[0], rs[1], rs[2], rs[3], rs[4], rs[5]];
    TopLanguagesOfTally(rs);
  }
}
