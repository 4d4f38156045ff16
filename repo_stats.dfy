/**
 * The statistics block of the GitHub section: number of repositories, total
 * stars and forks, and the five most used languages. The page builds a
 * language -> count dictionary in a loop over the repositories, lists its
 * entries in insertion order (`Object.entries`), sorts them by descending
 * count and keeps the first five.
 */
module RepoStats {
  import opened Wrappers

  /** The fields of a repository record from the GitHub API that the statistics read. */
  datatype Repo = Repo(name: string, stargazersCount: nat, forksCount: nat, language: Option<string>)

  /** A language and its count, as one element of `Object.entries(languageCounts)`. */
  type Entry = (string, nat)

  const TopCount := 5

  // ----- the sums -----

  /** `repos.reduce((sum, repo) => sum + count(repo), 0)`: a fold from the left. */
  function Total(repos: seq<Repo>, count: Repo -> nat): (r: nat)
    ensures r == 0 <==> forall k :: 0 <= k < |repos| ==> count(repos[k]) == 0
  {
    if repos == [] then 0 else Total(repos[..|repos| - 1], count) + count(repos[|repos| - 1])
  }

  function Stars(r: Repo): nat { r.stargazersCount }

  function Forks(r: Repo): nat { r.forksCount }

  /** Summing two runs of repositories separately and adding gives the sum over both. */
  lemma {:induction false} TotalAppend(a: seq<Repo>, b: seq<Repo>, count: Repo -> nat)
    ensures Total(a + b, count) == Total(a, count) + Total(b, count)
    decreases |b|
  {
    if b != [] {
      var init := b[..|b| - 1];
      assert (a + b)[..|a + b| - 1] == a + init;
      TotalAppend(a, init, count);
    } else {
      assert a + b == a;
    }
  }

  /** The total is the sum of one-repository totals: each repository adds exactly its own count. */
  lemma {:induction false} TotalCons(r: Repo, rest: seq<Repo>, count: Repo -> nat)
    ensures Total([r] + rest, count) == count(r) + Total(rest, count)
  {
    TotalAppend([r], rest, count);
    assert [r][..0] == [];
  }

  /** No single repository counts for more than the total. */
  lemma {:induction false} TotalBoundsEach(repos: seq<Repo>, k: nat, count: Repo -> nat)
    requires k < |repos|
    ensures count(repos[k]) <= Total(repos, count)
    decreases |repos|
  {
    if k < |repos| - 1 {
      TotalBoundsEach(repos[..|repos| - 1], k, count);
    }
  }

  // ----- the language tally -----

  /** `if (repo.language)`: both null and "" are falsy, so neither is counted. */
  predicate HasLanguage(r: Repo)
  {
    r.language.Some? && r.language.value != ""
  }

  predicate WrittenIn(r: Repo, lang: string)
  {
    HasLanguage(r) && r.language.value == lang
  }

  /** The number of repositories written in lang. */
  function LanguageCount(repos: seq<Repo>, lang: string): nat
  {
    if repos == [] then 0
    else LanguageCount(repos[..|repos| - 1], lang) + (if WrittenIn(repos[|repos| - 1], lang) then 1 else 0)
  }

  /** The languages in the order they first appear: the key order of the page's dictionary. */
  function Languages(repos: seq<Repo>): seq<string>
  {
    if repos == [] then []
    else
      var seen := Languages(repos[..|repos| - 1]);
      var r := repos[|repos| - 1];
      if HasLanguage(r) && r.language.value !in seen then seen + [r.language.value] else seen
  }

  /** The number of repositories that have a language. */
  function CountWithLanguage(repos: seq<Repo>): nat
  {
    if repos == [] then 0
    else CountWithLanguage(repos[..|repos| - 1]) + (if HasLanguage(repos[|repos| - 1]) then 1 else 0)
  }

  predicate Distinct<T(==)>(s: seq<T>)
  {
    forall a, b :: 0 <= a < b < |s| ==> s[a] != s[b]
  }

  /** The listed languages are exactly those some repository is written in, each listed once. */
  lemma {:induction false} LanguagesAreCounted(repos: seq<Repo>)
    ensures forall lang :: lang in Languages(repos) <==> LanguageCount(repos, lang) > 0
    ensures Distinct(Languages(repos))
    ensures "" !in Languages(repos)
  {
    if repos != [] {
      LanguagesAreCounted(repos[..|repos| - 1]);
    }
  }

  /** Sum over the languages ls of their counts. */
  function SumCounts(repos: seq<Repo>, ls: seq<string>): nat
  {
    if ls == [] then 0 else LanguageCount(repos, ls[0]) + SumCounts(repos, ls[1..])
  }

  /** Adding one repository adds one to the sum over any duplicate-free list that includes its language. */
  lemma {:induction false} SumCountsStep(repos: seq<Repo>, ls: seq<string>)
    requires repos != [] && Distinct(ls)
    ensures var r := repos[|repos| - 1];
      SumCounts(repos, ls) ==
        SumCounts(repos[..|repos| - 1], ls) + (if HasLanguage(r) && r.language.value in ls then 1 else 0)
  {
    if ls != [] {
      assert Distinct(ls[1..]);
      SumCountsStep(repos, ls[1..]);
      var r := repos[|repos| - 1];
      if HasLanguage(r) && r.language.value == ls[0] {
        assert ls[0] !in ls[1..];
      }
      assert ls == [ls[0]] + ls[1..];
    }
  }

  lemma {:induction false} SumCountsAppend(repos: seq<Repo>, ls: seq<string>, lang: string)
    ensures SumCounts(repos, ls + [lang]) == SumCounts(repos, ls) + LanguageCount(repos, lang)
  {
    if ls != [] {
      assert (ls + [lang])[1..] == ls[1..] + [lang];
      SumCountsAppend(repos, ls[1..], lang);
    }
  }

  /**
   * Every repository that has a language is counted exactly once, and none
   * without one is: the counts add up to the number of repositories with a language.
   */
  lemma {:induction false} CountsAddUp(repos: seq<Repo>)
    ensures SumCounts(repos, Languages(repos)) == CountWithLanguage(repos)
  {
    if repos != [] {
      var init := repos[..|repos| - 1];
      var r := repos[|repos| - 1];
      CountsAddUp(init);
      LanguagesAreCounted(init);
      var seen := Languages(init);
      SumCountsStep(repos, seen);
      if HasLanguage(r) && r.language.value !in seen {
        SumCountsAppend(repos, seen, r.language.value);
        assert LanguageCount(init, r.language.value) == 0;
      }
    }
  }

  /**
   * The loop that fills `languageCounts`: for each repository with a language,
   * `languageCounts[lang] = (languageCounts[lang] || 0) + 1`. The key order of
   * the dictionary is returned beside it, as a JavaScript object keeps it.
   */
  method TallyLanguages(repos: seq<Repo>) returns (counts: map<string, nat>, order: seq<string>)
    ensures forall lang :: lang in counts <==> LanguageCount(repos, lang) > 0
    ensures forall lang :: lang in counts ==> counts[lang] == LanguageCount(repos, lang)
    ensures order == Languages(repos)
    ensures forall lang :: lang in order <==> lang in counts
  {
    counts, order := map[], [];
    var i := 0;
    while i < |repos|
      invariant 0 <= i <= |repos|
      invariant forall lang :: lang in counts <==> LanguageCount(repos[..i], lang) > 0
      invariant forall lang :: lang in counts ==> counts[lang] == LanguageCount(repos[..i], lang)
      invariant order == Languages(repos[..i])
    {
      assert repos[..i + 1][..i] == repos[..i];
      LanguagesAreCounted(repos[..i]);
      var repo := repos[i];
      if HasLanguage(repo) {
        var lang := repo.language.value;
        var previous := if lang in counts then counts[lang] else 0;
        if lang !in counts {
          order := order + [lang];
        }
        counts := counts[lang := previous + 1];
      }
      i := i + 1;
    }
    assert repos[..i] == repos;
    LanguagesAreCounted(repos);
  }

  // ----- sorting the entries -----

  /** Every count is at least every count after it. */
  predicate NonIncreasing(s: seq<Entry>)
  {
    forall a, b :: 0 <= a < b < |s| ==> s[a].1 >= s[b].1
  }

  /** The entries with count c, in their order in s. */
  function WithCount(s: seq<Entry>, c: nat): seq<Entry>
  {
    if s == [] then [] else (if s[0].1 == c then [s[0]] else []) + WithCount(s[1..], c)
  }

  predicate DistinctKeys(s: seq<Entry>)
  {
    forall a, b :: 0 <= a < b < |s| ==> s[a].0 != s[b].0
  }

  /** Places e before the first entry whose count is not larger than its own. */
  function InsertByCount(e: Entry, s: seq<Entry>): (r: seq<Entry>)
    ensures multiset(r) == multiset(s) + multiset{e}
    ensures |r| == |s| + 1
  {
    if s == [] then [e]
    else if s[0].1 > e.1 then
      assert s == [s[0]] + s[1..];
      [s[0]] + InsertByCount(e, s[1..])
    else [e] + s
  }

  /**
   * `entries.sort((a, b) => b[1] - a[1])`: descending by count, and stable, as
   * the language standard requires of `Array.prototype.sort`, so equal counts
   * keep their first-seen order.
   */
  function SortByCount(s: seq<Entry>): (r: seq<Entry>)
    ensures multiset(r) == multiset(s)
    ensures |r| == |s|
  {
    if s == [] then []
    else
      assert s == [s[0]] + s[1..];
      InsertByCount(s[0], SortByCount(s[1..]))
  }

  lemma {:induction false} InsertKeepsOrder(e: Entry, s: seq<Entry>)
    requires NonIncreasing(s)
    ensures NonIncreasing(InsertByCount(e, s))
  {
    if s != [] && s[0].1 > e.1 {
      InsertKeepsOrder(e, s[1..]);
      var t := InsertByCount(e, s[1..]);
      forall x | x in t ensures s[0].1 >= x.1 {
        assert x in multiset(t);
        if x != e {
          assert x in multiset(s[1..]);
          assert x in s[1..];
        }
      }
    }
  }

  /** The sorted entries have non-increasing counts. */
  lemma {:induction false} SortIsNonIncreasing(s: seq<Entry>)
    ensures NonIncreasing(SortByCount(s))
  {
    if s != [] {
      SortIsNonIncreasing(s[1..]);
      InsertKeepsOrder(s[0], SortByCount(s[1..]));
    }
  }

  lemma {:induction false} WithCountAppend(a: seq<Entry>, b: seq<Entry>, c: nat)
    ensures WithCount(a + b, c) == WithCount(a, c) + WithCount(b, c)
  {
    if a != [] {
      assert (a + b)[1..] == a[1..] + b;
      WithCountAppend(a[1..], b, c);
    } else {
      assert a + b == b;
    }
  }

  lemma {:induction false} InsertIsStable(e: Entry, s: seq<Entry>, c: nat)
    ensures WithCount(InsertByCount(e, s), c) == (if e.1 == c then [e] else []) + WithCount(s, c)
  {
    if s != [] && s[0].1 > e.1 {
      InsertIsStable(e, s[1..], c);
      WithCountAppend([s[0]], InsertByCount(e, s[1..]), c);
      WithCountAppend([s[0]], s[1..], c);
      assert [s[0]] + s[1..] == s;
      if e.1 == c {
        assert WithCount([s[0]], c) == [];
      }
    } else {
      WithCountAppend([e], s, c);
    }
  }

  /** Stability: for every count, the entries with that count keep their relative order. */
  lemma {:induction false} SortIsStable(s: seq<Entry>, c: nat)
    ensures WithCount(SortByCount(s), c) == WithCount(s, c)
  {
    if s != [] {
      SortIsStable(s[1..], c);
      InsertIsStable(s[0], SortByCount(s[1..]), c);
    }
  }

  lemma {:induction false} WithCountHead(s: seq<Entry>)
    requires s != []
    ensures WithCount(s, s[0].1) != [] && WithCount(s, s[0].1)[0] == s[0]
  {
  }

  lemma {:induction false} WithCountMembers(s: seq<Entry>, c: nat)
    ensures forall x :: x in WithCount(s, c) <==> x in s && x.1 == c
  {
    if s != [] {
      WithCountMembers(s[1..], c);
      assert s == [s[0]] + s[1..];
    }
  }

  /**
   * A non-increasing order with the same entries per count is unique: every
   * stable descending sort of s gives SortByCount(s), whichever algorithm the
   * JavaScript engine runs.
   */
  lemma {:induction false} StableSortIsUnique(r1: seq<Entry>, r2: seq<Entry>)
    requires NonIncreasing(r1) && NonIncreasing(r2)
    requires forall c :: WithCount(r1, c) == WithCount(r2, c)
    ensures r1 == r2
    decreases |r1|
  {
    if r1 == [] {
      if r2 != [] {
        WithCountHead(r2);
      }
    } else if r2 == [] {
      WithCountHead(r1);
    } else {
      var x, y := r1[0], r2[0];
      WithCountHead(r1);
      WithCountHead(r2);
      WithCountMembers(r1, y.1);
      WithCountMembers(r2, x.1);
      assert y in WithCount(r1, y.1);
      assert x in WithCount(r2, x.1);
      assert x.1 == y.1;
      assert x == y;
      forall c ensures WithCount(r1[1..], c) == WithCount(r2[1..], c) {
        var front := if x.1 == c then [x] else [];
        assert WithCount(r1, c) == front + WithCount(r1[1..], c);
        assert WithCount(r2, c) == front + WithCount(r2[1..], c);
        assert WithCount(r1[1..], c) == WithCount(r1, c)[|front|..];
        assert WithCount(r2[1..], c) == WithCount(r2, c)[|front|..];
      }
      StableSortIsUnique(r1[1..], r2[1..]);
      assert r1 == [x] + r1[1..] && r2 == [y] + r2[1..];
    }
  }

  lemma {:induction false} InsertKeepsKeysDistinct(e: Entry, s: seq<Entry>)
    requires DistinctKeys(s) && forall x :: x in s ==> x.0 != e.0
    ensures DistinctKeys(InsertByCount(e, s))
  {
    if s != [] && s[0].1 > e.1 {
      InsertKeepsKeysDistinct(e, s[1..]);
      var t := InsertByCount(e, s[1..]);
      forall x | x in t ensures x.0 != s[0].0 {
        assert x in multiset(t);
        if x != e {
          assert x in multiset(s[1..]);
          var k :| 0 <= k < |s[1..]| && s[1..][k] == x;
          assert s[k + 1] == x;
        }
      }
    }
  }

  lemma {:induction false} SortKeepsKeysDistinct(s: seq<Entry>)
    requires DistinctKeys(s)
    ensures DistinctKeys(SortByCount(s))
  {
    if s != [] {
      assert DistinctKeys(s[1..]);
      SortKeepsKeysDistinct(s[1..]);
      var t := SortByCount(s[1..]);
      forall x | x in t ensures x.0 != s[0].0 {
        assert x in multiset(t);
        assert x in multiset(s[1..]);
        var k :| 0 <= k < |s[1..]| && s[1..][k] == x;
        assert s[k + 1] == x;
      }
      InsertKeepsKeysDistinct(s[0], t);
    }
  }

  // ----- the top five -----

  function Min(a: nat, b: nat): nat { if a <= b then a else b }

  /** `.sort(...).slice(0, 5)`. */
  function TopLanguages(entries: seq<Entry>): (top: seq<Entry>)
    ensures |top| == Min(TopCount, |entries|) && |top| <= TopCount
    ensures multiset(top) <= multiset(entries)
    ensures NonIncreasing(top)
  {
    var sorted := SortByCount(entries);
    SortIsNonIncreasing(entries);
    assert sorted == sorted[..Min(TopCount, |entries|)] + sorted[Min(TopCount, |entries|)..];
    sorted[..Min(TopCount, |entries|)]
  }

  /** `Object.entries(languageCounts)`, in key order. */
  function LanguageEntries(repos: seq<Repo>): (es: seq<Entry>)
    ensures |es| == |Languages(repos)|
    ensures forall k :: 0 <= k < |es| ==> es[k] == (Languages(repos)[k], LanguageCount(repos, Languages(repos)[k]))
    ensures DistinctKeys(es)
    ensures forall lang :: Listed(es, lang) <==> LanguageCount(repos, lang) > 0
    ensures forall k :: 0 <= k < |es| ==> es[k].1 == LanguageCount(repos, es[k].0) > 0
  {
    var ls := Languages(repos);
    LanguagesAreCounted(repos);
    var es := seq(|ls|, k requires 0 <= k < |ls| => (ls[k], LanguageCount(repos, ls[k])));
    assert forall lang :: Listed(es, lang) <==> lang in ls by {
      forall lang ensures Listed(es, lang) <==> lang in ls {
        if lang in ls {
          var k :| 0 <= k < |ls| && ls[k] == lang;
          assert es[k].0 == lang;
        }
      }
    }
    es
  }

  /** True when some entry of s is for lang. */
  predicate Listed(s: seq<Entry>, lang: string)
  {
    exists k :: 0 <= k < |s| && s[k].0 == lang
  }

  /** Each sorted entry is a language with its true, positive count. */
  lemma SortedEntriesAreCounts(repos: seq<Repo>, sorted: seq<Entry>)
    requires sorted == SortByCount(LanguageEntries(repos))
    ensures forall k :: 0 <= k < |sorted| ==> LanguageCount(repos, sorted[k].0) == sorted[k].1 && sorted[k].1 > 0
  {
    var es := LanguageEntries(repos);
    LanguagesAreCounted(repos);
    forall k | 0 <= k < |sorted|
      ensures LanguageCount(repos, sorted[k].0) == sorted[k].1 && sorted[k].1 > 0
    {
      assert sorted[k] in multiset(es);
      var i :| 0 <= i < |es| && es[i] == sorted[k];
      assert Languages(repos)[i] in Languages(repos);
    }
  }

  /** A language that is counted but not among the first n sorted entries has no larger count than any of them. */
  lemma ExcludedAreNotLarger(repos: seq<Repo>, n: nat, top: seq<Entry>)
    requires n <= |Languages(repos)| && top == SortByCount(LanguageEntries(repos))[..n]
    ensures forall lang, k :: (0 <= k < n && LanguageCount(repos, lang) > 0 && !Listed(top, lang)) ==>
      top[k].1 >= LanguageCount(repos, lang)
  {
    var es := LanguageEntries(repos);
    var sorted := SortByCount(es);
    LanguagesAreCounted(repos);
    SortIsNonIncreasing(es);
    forall lang, k | 0 <= k < n && LanguageCount(repos, lang) > 0 && !Listed(top, lang)
      ensures top[k].1 >= LanguageCount(repos, lang)
    {
      var i :| 0 <= i < |Languages(repos)| && Languages(repos)[i] == lang;
      assert es[i] in multiset(sorted);
      var p :| 0 <= p < |sorted| && sorted[p] == es[i];
      assert sorted[p].1 == LanguageCount(repos, lang);
      assert top[k] == sorted[k];
      assert es[i].0 == lang;
      forall q | 0 <= q < n
        ensures sorted[q] != es[i]
      {
        assert top[q] == sorted[q];
        assert top[q].0 != lang;
      }
      assert p >= n;
      assert sorted[k].1 >= sorted[p].1;
    }
  }

  /**
   * The top-languages list: at most five entries, each a language with its
   * true count, no language twice, counts non-increasing, and no language left
   * out has a larger count than any listed one.
   */
  lemma TopLanguagesCorrect(repos: seq<Repo>)
    ensures var top := TopLanguages(LanguageEntries(repos));
      |top| == Min(TopCount, |Languages(repos)|) &&
      (forall k :: 0 <= k < |top| ==> LanguageCount(repos, top[k].0) == top[k].1 && top[k].1 > 0) &&
      NonIncreasing(top) && DistinctKeys(top) &&
      (forall lang, k :: (0 <= k < |top| && LanguageCount(repos, lang) > 0 && !Listed(top, lang)) ==>
         top[k].1 >= LanguageCount(repos, lang))
  {
    var es := LanguageEntries(repos);
    var n := Min(TopCount, |es|);
    LanguagesAreCounted(repos);
    SortIsNonIncreasing(es);
    assert DistinctKeys(es);
    SortKeepsKeysDistinct(es);
    var sorted := SortByCount(es);
    var top := TopLanguages(es);
    SortedEntriesAreCounts(repos, sorted);
    ExcludedAreNotLarger(repos, n, top);
    forall k | 0 <= k < |top|
      ensures LanguageCount(repos, top[k].0) == top[k].1 && top[k].1 > 0
    {
      assert top[k] == sorted[k];
    }
  }

  // ----- the statistics shown -----

  datatype GitHubStats = GitHubStats(totalRepos: nat, totalStars: nat, totalForks: nat, languages: seq<Entry>)

  /** The statistics the page computes from the repository list before displaying them. */
  method ComputeStats(repos: seq<Repo>) returns (stats: GitHubStats)
    ensures stats.totalRepos == |repos|
    ensures stats.totalStars == Total(repos, Stars) && stats.totalForks == Total(repos, Forks)
    ensures stats.languages == TopLanguages(LanguageEntries(repos))
    ensures |stats.languages| == Min(TopCount, |Languages(repos)|)
    ensures forall k :: 0 <= k < |stats.languages| ==>
      stats.languages[k].1 == LanguageCount(repos, stats.languages[k].0) && stats.languages[k].1 > 0
    ensures NonIncreasing(stats.languages) && DistinctKeys(stats.languages)
    ensures forall lang, k ::
      (0 <= k < |stats.languages| && LanguageCount(repos, lang) > 0 && !Listed(stats.languages, lang)) ==>
        stats.languages[k].1 >= LanguageCount(repos, lang)
  {
    var counts, order := TallyLanguages(repos);
    var entries := seq(|order|, k requires 0 <= k < |order| => (order[k], counts[order[k]]));
    assert entries == LanguageEntries(repos);
    TopLanguagesCorrect(repos);
    stats := GitHubStats(|repos|, Total(repos, Stars), Total(repos, Forks), TopLanguages(entries));
  }
}
