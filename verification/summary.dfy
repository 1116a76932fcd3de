/** `generateSummary(profile, repos, events)`: the one-paragraph description
    of a user built from the profile, the repositories and the recent events.
    It is an opening sentence followed by up to three optional clauses. */
module Summary {
  import opened Optional
  import opened Text
  import opened StableSort
  import opened Repos
  import opened Languages

  /** The profile fields the summary reads. `name` is "" where the API gives
      `null`; a count is `None` where it is missing. */
  datatype Profile = Profile(login: string, name: string, publicRepos: Option<int>, followers: Option<int>)

  /** One entry of the event feed: its `type` ("" for a missing one) and the
      name of the repository it targets. */
  datatype Event = Event(eventType: string, repoName: string)

  /** `profile.name || profile.login`. */
  function DisplayName(p: Profile): string {
    if p.name != "" then p.name else p.login
  }

  /** `count || 0`: a missing count reads as zero. */
  function CountOrZero(c: Option<int>): int {
    c.GetOr(0)
  }

  /** A count in decimal, a space and the noun, with a plural 's' unless
      the count is exactly 1. */
  function Counted(n: int, noun: string): string {
    IntToString(n) + " " + noun + (if n == 1 then "" else "s")
  }

  /** The first event's type with its first "Event" removed; "" (for
      `null`) when there is no event or the type is missing or empty. */
  function ActivityWord(events: seq<Event>): string {
    if |events| == 0 || events[0].eventType == "" then ""
    else ReplaceFirst(events[0].eventType, "Event", "")
  }

  /** The first sentence: name, repository count and follower count. */
  function Opening(p: Profile): string {
    DisplayName(p) + " is a GitHub user with " + Counted(CountOrZero(p.publicRepos), "public repo")
      + " and " + Counted(CountOrZero(p.followers), "follower") + ". "
  }

  const LanguagesLead: string := "They commonly work with "
  const ActivityLead: string := "Recent activity includes "
  const TopLead: string := "Top repository: "

  function LanguagesClause(langs: seq<string>): string {
    if |langs| > 0 then LanguagesLead + Join(langs, ", ") + ". " else ""
  }

  function ActivityClause(word: string): string {
    if word != "" then ActivityLead + Lower(word) + " actions. " else ""
  }

  function TopRepoClause(top: Option<Repo>): string {
    match top
    case None => ""
    case Some(r) => TopLead + r.name + " (" + IntToString(r.stars) + " \U{2B50})."
  }

  /** `generateSummary(profile, repos, events)`. */
  function GenerateSummary(p: Profile, repos: seq<Repo>, events: seq<Event>): string {
    Assemble(Opening(p), TopLanguages(repos, 3), ActivityWord(events), TopRepo(repos))
  }

  /** A count of exactly one takes the singular noun, any other count (zero
      and negative ones included) the plural; the number itself is written
      in decimal in front. */
  lemma CountedGrammar(n: int, noun: string)
    requires noun != "" && noun[|noun| - 1] != 's'
    ensures var c := Counted(n, noun);
            && (c[|c| - 1] == 's' <==> n != 1)
            && c[..|IntToString(n)|] == IntToString(n)
            && (n >= 0 ==> IsDigits(IntToString(n)) && DigitsValue(IntToString(n)) == n)
  {
    var c := Counted(n, noun);
    var d := IntToString(n);
    IntToStringDigits(n);
    assert c == d + (" " + noun + (if n == 1 then "" else "s"));
  }

  /** A missing count is reported as zero, and so in the plural. */
  lemma MissingCountIsPluralZero(noun: string)
    requires noun != "" && noun[|noun| - 1] != 's'
    ensures Counted(CountOrZero(None), noun) == "0 " + noun + "s"
  {
    assert IntToString(0) == "0";
  }

  /** No activity word exactly when there is no first event, its type is
      empty, or its type is "Event" itself; a type without "Event" in it is
      kept as it is. */
  lemma ActivityWordEmptyIff(events: seq<Event>)
    ensures ActivityWord(events) == "" <==>
              |events| == 0 || events[0].eventType == "" || events[0].eventType == "Event"
    ensures |events| > 0 && (forall j: nat :: !OccursAt(events[0].eventType, "Event", j)) ==>
              ActivityWord(events) == events[0].eventType
  {
    if |events| > 0 && events[0].eventType != "" {
      var t := events[0].eventType;
      match IndexOf(t, "Event")
      case None =>
      case Some(i) =>
        assert OccursAt(t, "Event", i);
        var r := ReplaceFirst(t, "Event", "");
        assert r == t[..i] + "" + t[i + 5..];
        assert |r| == |t| - 5;
        if |t| == 5 {
          assert t == t[i..i + 5] == "Event";
        }
    }
  }

  /** Only the first "Event" is removed: a later one survives. */
  lemma ActivityWordFirstOccurrence()
    ensures ActivityWord([Event("EventXEvent", "")]) == "XEvent"
  {
    var t := "EventXEvent";
    assert OccursAt(t, "Event", 0);
    ReplaceFirstAt(t, "Event", "", 0);
    assert ReplaceFirst(t, "Event", "") == t[5..];
  }

  /** A language list is shown exactly when some repository names a
      language. */
  lemma LanguagesShownIff(rs: seq<Repo>, n: nat)
    requires n > 0
    ensures |TopLanguages(rs, n)| > 0 <==> exists i :: 0 <= i < |rs| && rs[i].language != ""
  {
    var r := TopLanguages(rs, n);
    TopLanguagesRanked(rs, n);
    if i :| 0 <= i < |rs| && rs[i].language != "" {
      var lang := rs[i].language;
      assert FirstIndex(rs, lang) <= i;
      OccursIffFirstIndex(rs, lang);
    }
    if |r| > 0 {
      OccursIffFirstIndex(rs, r[0]);
      assert rs[FirstIndex(rs, r[0])].language == r[0];
    }
  }

  /** The opening sentence ends in ". ". */
  lemma OpeningShape(p: Profile)
    ensures EndsWithStop(Opening(p))
  {
  }

  /** Gluing `y` after `x` keeps `x` in front and the end of `y` at the end. */
  lemma Glue(x: string, y: string)
    ensures OccursAt(x + y, x, 0)
    ensures EndsWithStop(y) ==> EndsWithStop(x + y)
    ensures |y| > 0 ==> (x + y)[|x + y| - 1] == y[|y| - 1]
  {
    assert (x + y)[0..|x|] == x;
    if |y| >= 2 {
      assert (x + y)[|x + y| - 2..] == y[|y| - 2..];
    }
  }

  /** The languages clause is absent exactly when there are no languages,
      and otherwise starts with its lead and ends in ". ". */
  lemma LanguagesClauseShape(langs: seq<string>)
    ensures LanguagesClause(langs) == "" <==> |langs| == 0
    ensures |langs| > 0 ==> OccursAt(LanguagesClause(langs), LanguagesLead, 0)
    ensures |langs| > 0 ==> EndsWithStop(LanguagesClause(langs))
  {
    if |langs| > 0 {
      var mid := Join(langs, ", ");
      assert LanguagesClause(langs) == LanguagesLead + (mid + ". ");
      Glue(mid, ". ");
      Glue(LanguagesLead, mid + ". ");
    }
  }

  /** The activity clause is absent exactly when there is no word, and
      otherwise starts with its lead and ends in ". ". */
  lemma ActivityClauseShape(word: string)
    ensures ActivityClause(word) == "" <==> word == ""
    ensures word != "" ==> OccursAt(ActivityClause(word), ActivityLead, 0)
    ensures word != "" ==> EndsWithStop(ActivityClause(word))
  {
    if word != "" {
      var mid := Lower(word);
      assert ActivityClause(word) == ActivityLead + (mid + " actions. ");
      Glue(mid, " actions. ");
      Glue(ActivityLead, mid + " actions. ");
    }
  }

  /** The top-repository sentence, built from the name and the star
      count, starts with its lead and ends in '.'. */
  lemma TopSentenceShape(name: string, stars: string)
    ensures var t := TopLead + name + " (" + stars + " \U{2B50}).";
            OccursAt(t, TopLead, 0) && t[|t| - 1] == '.'
  {
    var mid := name + " (" + stars + " \U{2B50}";
    assert TopLead + name + " (" + stars + " \U{2B50})." == TopLead + (mid + ").");
    Glue(mid, ").");
    Glue(TopLead, mid + ").");
  }

  /** The top-repository clause is absent exactly when there is no top
      repository, and otherwise starts with its lead and ends in '.'. */
  lemma TopRepoClauseShape(top: Option<Repo>)
    ensures TopRepoClause(top) == "" <==> top.None?
    ensures top.Some? ==> OccursAt(TopRepoClause(top), TopLead, 0)
    ensures top.Some? ==> TopRepoClause(top)[|TopRepoClause(top)| - 1] == '.'
  {
    if top.Some? {
      TopSentenceShape(top.value.name, IntToString(top.value.stars));
    }
  }

  /** The text ends with a full stop followed by a space, as each sentence
      but the last does. */
  predicate EndsWithStop(s: string) {
    |s| >= 2 && s[|s| - 2..] == ". "
  }

  /** In a summary assembled from an opening and three optional clauses,
      the opening comes first and the languages lead is found right after it
      exactly when that clause is present. */
  lemma LayoutLanguages(o: string, l: string, a: string, t: string)
    requires l == "" || OccursAt(l, LanguagesLead, 0)
    requires a == "" || OccursAt(a, ActivityLead, 0)
    requires t == "" || OccursAt(t, TopLead, 0)
    ensures var s := o + l + a + t;
            && s[..|o|] == o
            && (OccursAt(s, LanguagesLead, |o|) <==> l != "")
  {
    var s := o + l + a + t;
    Regroup(o, l, a, t);
    Glue(o, l + (a + t));
    LeadAtClause(s, o, l, a + t, LanguagesLead);
    if l == "" {
      TailAfterLanguages(a, t);
    }
  }

  lemma Regroup(o: string, l: string, a: string, t: string)
    ensures o + l + a + t == o + (l + (a + t))
    ensures o + l + a + t == (o + l) + (a + t)
  {
  }

  /** The activity lead is found right after the languages clause exactly
      when the activity clause is present. */
  lemma LayoutActivity(o: string, l: string, a: string, t: string)
    requires a == "" || OccursAt(a, ActivityLead, 0)
    requires t == "" || OccursAt(t, TopLead, 0)
    ensures OccursAt(o + l + a + t, ActivityLead, |o| + |l|) <==> a != ""
  {
    var s := o + l + a + t;
    Regroup(o, l, a, t);
    LeadAtClause(s, o + l, a, t, ActivityLead);
    if a == "" && t != "" {
      assert t[0] == TopLead[0];
    }
  }

  /** The text ends with the top-repository clause, and in '.' exactly when
      that clause is present. */
  lemma LayoutEnd(o: string, l: string, a: string, t: string)
    requires EndsWithStop(o)
    requires l == "" || EndsWithStop(l)
    requires a == "" || EndsWithStop(a)
    requires t == "" || t[|t| - 1] == '.'
    ensures var s := o + l + a + t;
            && (s[|s| - 1] == '.' <==> t != "")
            && s[|s| - |t|..] == t
  {
    var s := o + l + a + t;
    LastChar(o, l, a, t);
    assert s == (o + l + a) + t;
  }

  /** What follows an absent languages clause starts with neither lead. */
  lemma TailAfterLanguages(a: string, t: string)
    requires a == "" || OccursAt(a, ActivityLead, 0)
    requires t == "" || OccursAt(t, TopLead, 0)
    ensures !OccursAt(a + t, LanguagesLead, 0)
  {
    if |a| > 0 {
      assert (a + t)[0] == a[0] == ActivityLead[0];
    } else if |t| > 0 {
      assert (a + t)[1] == t[1] == TopLead[1];
    }
  }

  /** `lead` occurs where a clause starts exactly when the clause is there,
      or it is absent and `lead` begins what follows. */
  lemma LeadAtClause(s: string, before: string, clause: string, after: string, lead: string)
    requires s == before + (clause + after)
    requires clause == "" || OccursAt(clause, lead, 0)
    ensures OccursAt(s, lead, |before|) <==> clause != "" || OccursAt(after, lead, 0)
  {
    assert s[|before|..] == clause + after;
    if clause != "" {
      assert s[|before|..|before| + |lead|] == clause[..|lead|];
    } else {
      assert s[|before|..] == after;
      if |before| + |lead| <= |s| {
        assert s[|before|..|before| + |lead|] == after[..|lead|];
      }
    }
  }

  /** Only the top-repository clause ends in '.'; the others end in ". ". */
  lemma LastChar(o: string, l: string, a: string, t: string)
    requires EndsWithStop(o)
    requires l == "" || EndsWithStop(l)
    requires a == "" || EndsWithStop(a)
    requires t == "" || t[|t| - 1] == '.'
    ensures var s := o + l + a + t; s[|s| - 1] == '.' <==> t != ""
  {
    var s := o + l + a + t;
    if t == "" {
      if a != "" {
        assert s[|s| - 1] == a[|a| - 1];
      } else if l != "" {
        assert s[|s| - 1] == l[|l| - 1];
      } else {
        assert s[|s| - 1] == o[|o| - 1];
      }
    } else {
      assert s[|s| - 1] == t[|t| - 1];
    }
  }

  /** `GenerateSummary` in terms of what it computes from its inputs. */
  function Assemble(o: string, langs: seq<string>, word: string, top: Option<Repo>): string {
    o + LanguagesClause(langs) + ActivityClause(word) + TopRepoClause(top)
  }

  lemma AssembleLanguages(o: string, langs: seq<string>, word: string, top: Option<Repo>)
    ensures var s := Assemble(o, langs, word, top);
            && |s| >= |o| && s[..|o|] == o
            && (OccursAt(s, LanguagesLead, |o|) <==> |langs| > 0)
  {
    LanguagesClauseShape(langs);
    ActivityClauseShape(word);
    TopRepoClauseShape(top);
    LayoutLanguages(o, LanguagesClause(langs), ActivityClause(word), TopRepoClause(top));
  }

  lemma ActivityAfterLanguages(o: string, langs: seq<string>, word: string, top: Option<Repo>)
    ensures OccursAt(o + LanguagesClause(langs) + ActivityClause(word) + TopRepoClause(top),
                     ActivityLead, |o| + |LanguagesClause(langs)|)
        <==> ActivityClause(word) != ""
  {
    ActivityClauseShape(word);
    TopRepoClauseShape(top);
    LayoutActivity(o, LanguagesClause(langs), ActivityClause(word), TopRepoClause(top));
  }

  /** Whatever the opening, the languages and the top repository, the
      activity lead follows the languages clause exactly when there is an
      activity word; `GenerateSummary` passes `ActivityWord(events)`. */
  lemma AssembleActivity(o: string, langs: seq<string>, word: string, top: Option<Repo>)
    ensures OccursAt(Assemble(o, langs, word, top), ActivityLead, |o| + |LanguagesClause(langs)|)
        <==> word != ""
  {
    ActivityAfterLanguages(o, langs, word, top);
    ActivityClauseShape(word);
  }

  lemma AssembleEnd(o: string, langs: seq<string>, word: string, top: Option<Repo>)
    requires EndsWithStop(o)
    ensures var s := Assemble(o, langs, word, top);
            var t := TopRepoClause(top);
            && (s[|s| - 1] == '.' <==> top.Some?)
            && |s| >= |t| && s[|s| - |t|..] == t
  {
    LanguagesClauseShape(langs);
    ActivityClauseShape(word);
    TopRepoClauseShape(top);
    LayoutEnd(o, LanguagesClause(langs), ActivityClause(word), TopRepoClause(top));
  }

  /** The summary starts with the opening sentence; the languages clause
      follows it exactly when some repository names a language. */
  lemma SummaryLanguages(p: Profile, repos: seq<Repo>, events: seq<Event>)
    ensures var s := GenerateSummary(p, repos, events);
            && |s| >= |Opening(p)| && s[..|Opening(p)|] == Opening(p)
            && (OccursAt(s, LanguagesLead, |Opening(p)|) <==> exists i :: 0 <= i < |repos| && repos[i].language != "")
  {
    AssembleLanguages(Opening(p), TopLanguages(repos, 3), ActivityWord(events), TopRepo(repos));
    LanguagesShownIff(repos, 3);
  }

  /** The summary ends in '.' exactly when there are repositories, and then
      with the clause naming the first most-starred one. */
  lemma SummaryTop(p: Profile, repos: seq<Repo>, events: seq<Event>)
    ensures var s := GenerateSummary(p, repos, events);
            && (s[|s| - 1] == '.' <==> |repos| > 0)
            && forall i :: IsFirstMax(repos, Stars, i) ==>
                 var top := TopLead + repos[i].name + " (" + IntToString(repos[i].stars) + " \U{2B50}).";
                 |s| >= |top| && s[|s| - |top|..] == top
  {
    OpeningShape(p);
    AssembleEnd(Opening(p), TopLanguages(repos, 3), ActivityWord(events), TopRepo(repos));
    forall i | IsFirstMax(repos, Stars, i)
      ensures TopRepoClause(TopRepo(repos))
           == TopLead + repos[i].name + " (" + IntToString(repos[i].stars) + " \U{2B50})."
    {
      TopRepoIsFirstMax(repos, i);
    }
  }

  lemma OctocatNumbers()
    ensures IntToString(8) == "8"
    ensures IntToString(4000) == "4000"
    ensures IntToString(1800) == "1800"
  {
    assert NatToString(4) == "4" && NatToString(1) == "1";
    assert NatToString(40) == "40" && NatToString(18) == "18";
    assert NatToString(400) == "400" && NatToString(180) == "180";
    assert NatToString(4000) == "4000" && NatToString(1800) == "1800";
  }

  lemma OctocatActivity(events: seq<Event>)
    requires events == [Event("PushEvent", "octocat/Hello-World")]
    ensures ActivityWord(events) == "Push"
  {
    var t := events[0].eventType;
    assert t == "PushEvent";
    assert OccursAt(t, "Event", 4);
    forall j: nat | j < 4 ensures !OccursAt(t, "Event", j) {
      assert t[j] != 'E';
    }
    assert IndexOf(t, "Event") == Some(4);
    assert t[..4] == "Push" && t[9..] == "";
  }

  lemma OctocatLanguages()
    ensures TopLanguages([Repo("Hello-World", 1800, "C")], 3) == ["C"]
  {
    var r := Repo("Hello-World", 1800, "C");
    assert [r][..0] == [];
    assert Tally([r]) == [Tallied("C", 1)];
    assert SortedTally([r]) == [Tallied("C", 1)];
  }

  lemma OctocatOpening(p: Profile)
    requires p == Profile("octocat", "The Octocat", Some(8), Some(4000))
    ensures Opening(p) == "The Octocat is a GitHub user with 8 public repos and 4000 followers. "
  {
    OctocatNumbers();
    assert Counted(CountOrZero(p.publicRepos), "public repo") == "8 public repos";
    assert Counted(CountOrZero(p.followers), "follower") == "4000 followers";
    assert Opening(p) == "The Octocat" + " is a GitHub user with " + "8 public repos" + " and " + "4000 followers" + ". ";
    OctocatOpeningText();
  }

  lemma OctocatOpeningText()
    ensures "The Octocat" + " is a GitHub user with " + "8 public repos" + " and " + "4000 followers" + ". "
         == "The Octocat is a GitHub user with 8 public repos and 4000 followers. "
  {
    OctocatOpeningFront();
    assert "The Octocat is a GitHub user with 8 public repos" + " and " == "The Octocat is a GitHub user with 8 public repos and ";
    OctocatOpeningBack();
  }

  lemma OctocatOpeningFront()
    ensures "The Octocat" + " is a GitHub user with " + "8 public repos"
         == "The Octocat is a GitHub user with 8 public repos"
  {
    assert "The Octocat" + " is a GitHub user with " == "The Octocat is a GitHub user with ";
  }

  lemma OctocatOpeningBack()
    ensures "The Octocat is a GitHub user with 8 public repos and " + "4000 followers" + ". "
         == "The Octocat is a GitHub user with 8 public repos and 4000 followers. "
  {
    assert "The Octocat is a GitHub user with 8 public repos and " + "4000 followers"
        == "The Octocat is a GitHub user with 8 public repos and 4000 followers";
  }

  lemma OctocatClauses()
    ensures LanguagesClause(["C"]) == "They commonly work with C. "
    ensures ActivityClause("Push") == "Recent activity includes push actions. "
  {
    assert LanguagesClause(["C"]) == "They commonly work with " + "C" + ". ";
    assert "They commonly work with " + "C" == "They commonly work with C";
    assert Lower("Push") == "push";
    assert ActivityClause("Push") == "Recent activity includes " + "push" + " actions. ";
    assert "Recent activity includes " + "push" == "Recent activity includes push";
  }

  lemma OctocatTop(r: Repo)
    requires r == Repo("Hello-World", 1800, "C")
    ensures TopRepoClause(Some(r)) == "Top repository: Hello-World (1800 \U{2B50})."
  {
    OctocatNumbers();
    assert TopRepoClause(Some(r)) == "Top repository: " + "Hello-World" + " (" + "1800" + " \U{2B50}).";
    assert "Top repository: " + "Hello-World" == "Top repository: Hello-World";
    assert "Top repository: Hello-World" + " (" == "Top repository: Hello-World (";
    assert "Top repository: Hello-World (" + "1800" == "Top repository: Hello-World (1800";
  }

  /** The profile "The Octocat" with 8 public repositories and 4000
      followers, one repository Hello-World in C with 1800 stars and a push
      as the latest event give the full four-sentence summary. */
  lemma OctocatSummary(p: Profile, repos: seq<Repo>, events: seq<Event>)
    requires p == Profile("octocat", "The Octocat", Some(8), Some(4000))
    requires repos == [Repo("Hello-World", 1800, "C")]
    requires events == [Event("PushEvent", "octocat/Hello-World")]
    ensures GenerateSummary(p, repos, events)
         == "The Octocat is a GitHub user with 8 public repos and 4000 followers. "
          + "They commonly work with C. "
          + "Recent activity includes push actions. "
          + "Top repository: Hello-World (1800 \U{2B50})."
  {
    OctocatActivity(events);
    OctocatLanguages();
    assert IsFirstMax(repos, Stars, 0);
    TopRepoIsFirstMax(repos, 0);
    OctocatOpening(p);
    OctocatClauses();
    OctocatTop(repos[0]);
    assert GenerateSummary(p, repos, events)
        == Opening(p) + LanguagesClause(["C"]) + ActivityClause("Push") + TopRepoClause(Some(repos[0]));
  }
}
