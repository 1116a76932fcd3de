# GitHub finder: the page's data-shaping core

`script.js` holds all the logic of a single-page GitHub lookup tool. Around its DOM
and `fetch` code sit a few pure computations, and this project models them
in Dafny:

- the **search history** (`saveHistory`, `removeHistoryItem`, `clearHistory`).
  It is a most-recently-used list of user names, at most `MAX_HISTORY = 8`
  long, with no two entries equal ignoring case;
- the **star rankings**: the stable descending sort by `stargazers_count`
  used for the pinned list (first 3), the repository list (first 5) and the
  summary's top repository;
- **`topLanguages`**: count the non-empty languages, sort the counts in
  descending order and keep the first `n` names;
- **`generateSummary`**: the one-paragraph description built from a
  profile, the repositories and the recent events;
- **`escapeHtml`**: three `replaceAll` passes, with `&` first.

Modules:

| module | file | models |
|---|---|---|
| `Optional` | optional.dfy | `null`/`undefined` results |
| `Seqs` | seqs.dfy | `slice(0, n)` and `filter` |
| `Text` | text.dfy | `toLowerCase`, `indexOf`, `replace`, `replaceAll`, `join`, and decimal rendering of integers |
| `Html` | html.dfy | `escapeHtml` |
| `History` | history.dfy | the history list |
| `StableSort` | stable_sort.dfy | a stable sort by a descending integer key |
| `Repos` | repos.dfy | repository records and the three star rankings |
| `Languages` | languages.dfy | `topLanguages` |
| `Summary` | summary.dfy | `generateSummary` |

Modelling decisions:

- Strings are `seq<char>`, and numbers are unbounded `int`s.
- JavaScript's falsy `null`, `undefined` and `""` are all `""` for strings. A missing count is `None`.
- `Array.prototype.sort` with the comparator `(a, b) => b.k - a.k` is stable, because ECMAScript 2019 requires it. It is modelled by an insertion sort. It inserts the elements from the last one to the first, each in front of the first already-sorted element whose key is not larger. An element therefore goes ahead of the later elements with the same key, so equal keys keep their input order. `StableSort.StableSortUnique` shows that any stable descending sort gives the same sequence. So the model does not depend on which stable algorithm a browser uses.
- The `counts` object of `topLanguages` is a sequence of (language, count) entries. Entries are in first-seen order, which is what `Object.entries` gives for non-numeric keys.
- `toLowerCase` is ASCII lower-casing.

Behaviour of the code worth knowing:

- **Activity word.** `type.replace('Event', '')` removes the first occurrence of "Event" wherever it is, not only a trailing one. So "EventXEvent" gives "XEvent" (`Summary.ActivityWordFirstOccurrence`).
- **Activity clause.** The clause is left out when there are no events, and also when the first type is missing or empty, or is exactly "Event": the replacement then leaves an empty, falsy word.
- **Corrupt stored history.** `JSON.parse` at script.js:49, script.js:55 and script.js:79 has no `try`, so a corrupt stored history throws. Storage is not modelled.

## Model

| member | source | states |
|---|---|---|
| History.Save | script.js:53-61 | An empty name leaves the list unchanged. Otherwise the new list starts with the name and holds 1 to 8 entries. Exactly one entry equals the name ignoring case. Entries 1.. are the first at most 7 old entries that differ from the name ignoring case, in their old order. |
| History.Without | script.js:56 | The filtered list is a subsequence of the old one, so order is kept. It holds exactly the entries that differ from the name ignoring case, each with its old multiplicity. |
| History.Remove | script.js:78-83 | The name no longer occurs, and the result is a subsequence of the old list. Every other string keeps its number of occurrences. |
| History.Clear | script.js:85-88 | After clearing, the list is empty whatever it held. |
| History.RemoveAbsentIsNoop | script.js:80 | Removing a name that is not in the list changes nothing. |
| History.RemoveIsCaseSensitive | script.js:80 | Removing "octocat" keeps "Octocat": removal compares exactly. |
| History.SaveIdempotent | script.js:53-58 | Saving the same name twice in a row gives the same list as saving it once. |
| History.SavePreservesWellFormed | script.js:53-58 | Saving keeps the list's invariant: at most 8 entries, none empty, no two equal ignoring case. |
| History.RemovePreservesWellFormed | script.js:78-81 | Removing keeps the same invariant. |
| History.SaveAllDistinct | script.js:53-58 | Saving in turn N non-empty names that differ from each other and from the list ignoring case stacks them newest first on the old list and keeps the first 8. |
| History.SaveAllRecent | script.js:53-58 | From any starting list, saving in turn non-empty names that differ from each other ignoring case leaves the last min(N, 8) of them at the front, newest first. |
| History.SaveAllKeepsLastEight | script.js:53-58 | From any starting list, saving in turn at least 8 non-empty names that differ from each other ignoring case leaves exactly the 8 most recent, newest first. |
| Seqs.Take | script.js:58 | `slice(0, n)` has length min(n, length), and each element is the element at the same index of the input. |
| Seqs.FilterSubsequence | script.js:56 | `filter` keeps the relative order of what it keeps. |
| Seqs.FilterMembers | script.js:80 | An element is in the filtered list if and only if it was in the input and passes the test. |
| Seqs.FilterCounts | script.js:80 | Each kept value keeps its number of occurrences, and each rejected value has none. |
| Seqs.FilterKeepsAll | script.js:80 | When every element passes the test, `filter` returns the input. |
| Text.Lower | script.js:56 | Lower-casing keeps the length and maps each character on its own. |
| Text.IndexOf | script.js:275 | `indexOf` gives the first position where the pattern occurs, or none when it occurs nowhere. |
| Text.ReplaceFirstAt | script.js:275 | `replace` with a string pattern replaces the first occurrence, and only that one. |
| Text.ReplaceFirstAbsent | script.js:275 | Without an occurrence, `replace` returns the string unchanged. |
| Text.ReplaceAllChar | script.js:293 | After `replaceAll(c, rep)`, a character is present if and only if it was present and is not `c`, or `c` was present and the character is in `rep`. |
| Text.ReplaceAllCharAppend | script.js:293 | `replaceAll` of a one-character pattern works piecewise over concatenation. |
| Text.Join | script.js:278 | `join` of no names is empty, and `join` of one name is that name. |
| Text.NatToStringDigits | script.js:277 | A natural number is written as non-empty decimal digits without a leading zero, and reading them back gives the number. |
| Text.IntToStringDigits | script.js:277 | An integer starts with '-' exactly when it is negative, and its digits read back to its absolute value. |
| Html.EscapeHtml | script.js:291-294 | An empty input comes back as it is. Otherwise the output has no '<' and no '>', and decoding the three entities gives the input back. |
| Html.ThreePassesAreOnePass | script.js:293 | Because '&' is replaced first, the three passes equal one left-to-right pass that escapes each character once. |
| Html.EscapeEach | script.js:293 | The one-pass escape puts no '<' or '>' in its output. |
| Html.UnescapeInvertsEscape | script.js:293 | Decoding `&lt;`, `&gt;` and `&amp;` undoes the escape for every string. |
| StableSort.SortDesc | script.js:117 | The sort keeps the length, and its result is in descending key order. |
| StableSort.SortDescPermutes | script.js:117 | The sort is a permutation of its input. |
| StableSort.SortDescIsStableSort | script.js:117 | The sort is stable: for every key, the elements with that key appear in the output exactly as in the input. |
| StableSort.StableSortUnique | script.js:117 | Any sequence that is sorted in descending order and stable for every key equals the sort's result. |
| StableSort.SortedPrefixDominates | script.js:161 | A prefix of a sorted sequence is sorted, is part of it, and no left-out element has a larger key than a kept one. |
| StableSort.SortDescHead | script.js:280 | The head of the sort is the first element, in input order, with the largest key. |
| StableSort.SortDescTieOrder | script.js:288 | When the input is in ascending rank order, elements with equal keys come out in ascending rank order. |
| Repos.ByStars | script.js:117 | Sorting by stars is a permutation, is in descending star order, and keeps the input order of equal star counts. |
| Repos.TopByStars | script.js:161 | The first `n` by stars: min(n, count) repositories in descending star order, all taken from the input. None left out has more stars than one taken. For each star count, the repositories kept are the earliest ones with that count, in input order. |
| Repos.TopByStarsTieExample | script.js:161 | Of two repositories with 5 stars each, the top one is the first. |
| Repos.PinnedIsPrefixOfTopFive | script.js:117 | The pinned list equals the first three of the top-five list. |
| Repos.TopRepo | script.js:280 | There is no top repository exactly when there are no repositories. Otherwise it is the first repository, in input order, with the most stars. |
| Repos.TopRepoIsFirstMax | script.js:280 | Conversely, the first repository with the most stars is the top one. |
| Repos.TopRepoScan | script.js:280 | A single scan that keeps the first strictly larger candidate finds the same top repository. |
| Repos.TopRepoTieExample | script.js:280 | With star counts [10, 50, 50, 3], the top repository is the first one with 50. |
| Languages.BumpPresent | script.js:287 | Counting a language already in the table adds one to its count. Every other entry and the order stay the same. |
| Languages.BumpAbsent | script.js:287 | Counting a new language appends it with count 1 at the end, which is the insertion order. |
| Languages.TallyTabulates | script.js:286-287 | The table has one entry per non-empty language, with its number of occurrences. Entries are in the order of each language's first occurrence. |
| Languages.RankedTally | script.js:288 | Every entry of the sorted table is a non-empty language that occurs, and every such language is listed. Each entry outranks every later one: more repositories use it, or as many and it occurs first. |
| Languages.TopLanguages | script.js:285-289 | At most `n` names. |
| Languages.TopLanguagesRanked | script.js:285-289 | Each name is a non-empty language of some repository, and the names are distinct. Each name occurs at least as often as the next, and a tie goes to the language seen first. A language left out means the list is full and every listed language outranks it. |
| Languages.TopLanguagesExample | script.js:285-289 | Languages Go, Go, Rust, Python, Python, Python give ["Python", "Go", "Rust"]. |
| Summary.CountedGrammar | script.js:277 | A count ends in the plural 's' exactly when it is not 1 (including 0 and negatives), and starts with the count in decimal. |
| Summary.MissingCountIsPluralZero | script.js:273-277 | A missing count reads as "0", in the plural. |
| Summary.ActivityWordEmptyIff | script.js:275 | There is no activity word exactly when there is no event, or the first type is empty, or it is "Event". A type without "Event" is used unchanged. |
| Summary.ActivityWordFirstOccurrence | script.js:275 | Only the first "Event" is removed: "EventXEvent" gives "XEvent". |
| Summary.LanguagesShownIff | script.js:272-278 | The language list is non-empty exactly when some repository names a language. |
| Summary.SummaryLanguages | script.js:270-278 | The summary starts with the opening sentence. The languages clause follows exactly when some repository names a language. |
| Summary.AssembleActivity | script.js:279 | The activity lead follows the languages clause exactly when there is an activity word. |
| Summary.SummaryTop | script.js:280-281 | The summary ends in '.' exactly when there are repositories. It then ends with the sentence for the first most-starred repository. |
| Summary.OctocatSummary | script.js:270-283 | For the profile "The Octocat" (8 repositories, 4000 followers), one C repository Hello-World with 1800 stars and a push event, the summary is the four expected sentences. |

## Left out

- DOM rendering: `renderProfile`, `renderRepos`, `renderPinned`, `renderActivity`, `renderHistory`, `renderContributions` and their HTML templates are presentation. That includes `renderHistory` putting names into `onclick` attributes unescaped.
- Network and async flow: `doSearch`, `renderStatsCard`, `fetchTrending` and image fallbacks are I/O and event-loop ordering.
- Browser storage and JSON: the history is an explicit list parameter, and `loadHistory` is not modelled.
- Theme toggling (`initTheme`, `toggleTheme`, `updateThemeBtn`) is UI state.
- Non-array API payloads: the `Array.isArray(repos)` guard at script.js:117 is not modelled. Repositories and events are always sequences.
- `toDateString` and `encodeURIComponent` are library calls the core does not need.
- Text.Lower: only ASCII letters are lower-cased. Full Unicode case mapping is a library call.
- Number rendering: counts and star counts are integers. Non-integer and `NaN` values are not modelled, because JavaScript renders them differently.
- Large numbers: a count of 1e21 or more, which a template literal writes in exponent form, and the loss of precision beyond 2^53 are not modelled. The model writes every integer in full decimal.
- `replace` patterns: a replacement string containing `$&`, `$$`, `` $` `` or `$'` is expanded by JavaScript. `Text.ReplaceFirst` copies the replacement literally, which agrees with the only use, where the replacement is empty.
- Object key order: numeric-looking language names, which `Object.entries` would list first, are not modelled. Keys are taken in insertion order.
- Language names that collide with properties every object inherits (such as "constructor") are not modelled. For them `counts[lang] || 0` does not start from 0.
- A profile with neither `name` nor `login` would print "undefined". The model prints the empty login instead, and a found profile always has a login.
- Languages.TopLanguages: its own contract gives only the length bound. Content and order are stated in Languages.TopLanguagesRanked, which keeps that reasoning out of proofs that only mention the function.
- StableSort.SortDesc: its own contract gives length and order. Being a permutation is stated in StableSort.SortDescPermutes, for the same reason.
- Text.Join: the contract covers only empty and one-element lists. The summary shows at most three names, and none of its properties depend on the separator.
- Activity clause: it is stated for the assembled template (Summary.AssembleActivity) together with Summary.ActivityWordEmptyIff, not as one lemma about `GenerateSummary`.
