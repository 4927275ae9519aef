/**
 * The data shaping done by the GitHub statistics endpoint once the GraphQL
 * response has been decoded: per-language commit totals and the top-6 ranking
 * with percentages, the 30-day contribution sparkline, and the pull-request
 * timeline with its 30-day count and its public, newest-first, top-5 view.
 *
 * Timestamps are integers (milliseconds); "30 days ago" is a parameter.
 */
module GitHubStats {
  import opened Wrappers
  import opened Sorting

  // ---------------------------------------------------------------------
  // The decoded upstream payload
  // ---------------------------------------------------------------------

  /** One week of the contribution calendar: its daily contribution counts, oldest first. */
  type Week = seq<int>

  /**
   * One entry of `commitContributionsByRepository`: the commits contributed to
   * a repository, and the name of its largest language if it has one.
   */
  datatype RepoContribution = RepoContribution(contributions: int, language: Option<string>)

  /** One node of `pullRequests`, with its repository's name and visibility. */
  datatype PullRequest = PullRequest(
    title: string, url: string, createdAt: int, merged: bool, repoName: string, isPrivate: bool)

  /** The `user` object of the response; absent lists are decoded as empty ones. */
  datatype User = User(
    weeks: seq<Week>,
    commitContributions: seq<RepoContribution>,
    repositoriesTotal: Option<int>,
    pullRequests: seq<PullRequest>)

  /** A decoded response: whether it carried top-level `errors`, and its `data.user`. */
  datatype Response = Response(errors: bool, user: Option<User>)

  // ---------------------------------------------------------------------
  // The snapshot returned to callers
  // ---------------------------------------------------------------------

  datatype LanguageUsage = LanguageUsage(language: string, percent: int)

  /** The `type` tag of a timeline entry; pull requests are the only kind. */
  datatype EntryType = PullRequestEntry

  datatype TimelineEntry = TimelineEntry(
    date: int, kind: EntryType, summary: string, url: string, isPrivate: bool)

  datatype GitHubSummary = GitHubSummary(
    commitsLast30Days: int,
    prsLast30Days: nat,
    reposContributedTo: int,
    topLanguages: seq<LanguageUsage>,
    contributionSparkline: seq<int>)

  datatype Snapshot = Snapshot(github: GitHubSummary, timeline: seq<TimelineEntry>)

  const MergedLabel: string := "TypeScript / JavaScript"
  const MaxLanguages: nat := 6
  const SparklineDays: nat := 30
  const MaxTimeline: nat := 5

  function Min(a: int, b: int): int
  {
    if a <= b then a else b
  }

  // ---------------------------------------------------------------------
  // Language accumulation
  // ---------------------------------------------------------------------

  /** The label a language is counted under: JavaScript and TypeScript share one. */
  function Label(language: string): (l: string)
    ensures l != "TypeScript" && l != "JavaScript"
    ensures language == "TypeScript" || language == "JavaScript" ==> l == MergedLabel
    ensures language != "TypeScript" && language != "JavaScript" ==> l == language
  {
    if language == "TypeScript" || language == "JavaScript" then MergedLabel else language
  }

  /** An entry takes part in the language statistics. */
  predicate Counted(c: RepoContribution)
  {
    c.contributions > 0 && c.language.Some?
  }

  /** One key/value pair of the `languageCounts` record. */
  datatype LanguageCount = LanguageCount(language: string, count: int)

  /**
   * `languageCounts[lang] = (languageCounts[lang] || 0) + n` on a record kept
   * in key-insertion order: an existing key keeps its place, a new key goes last.
   */
  function Bump(counts: seq<LanguageCount>, lang: string, n: int): seq<LanguageCount>
  {
    if |counts| == 0 then [LanguageCount(lang, n)]
    else if counts[0].language == lang then [LanguageCount(lang, counts[0].count + n)] + counts[1..]
    else [counts[0]] + Bump(counts[1..], lang, n)
  }

  /** The effect of one `forEach` iteration on the record. */
  function Tally(counts: seq<LanguageCount>, c: RepoContribution): seq<LanguageCount>
  {
    if Counted(c) then Bump(counts, Label(c.language.value), c.contributions) else counts
  }

  /** `languageCounts` after the `forEach` over `cs`. */
  function LanguageCounts(cs: seq<RepoContribution>): seq<LanguageCount>
  {
    if |cs| == 0 then [] else Tally(LanguageCounts(cs[..|cs| - 1]), cs[|cs| - 1])
  }

  /** `totalCommitsWithLanguage` after the `forEach` over `cs`. */
  function CommitsWithLanguage(cs: seq<RepoContribution>): int
  {
    if |cs| == 0 then 0
    else CommitsWithLanguage(cs[..|cs| - 1]) + (if Counted(cs[|cs| - 1]) then cs[|cs| - 1].contributions else 0)
  }

  /** The keys of the record, in order. */
  function Labels(counts: seq<LanguageCount>): (ls: seq<string>)
    ensures |ls| == |counts|
  {
    if |counts| == 0 then [] else [counts[0].language] + Labels(counts[1..])
  }

  /** `languageCounts[lang] || 0`. */
  function Lookup(counts: seq<LanguageCount>, lang: string): int
  {
    if |counts| == 0 then 0
    else if counts[0].language == lang then counts[0].count
    else Lookup(counts[1..], lang)
  }

  /** The sum of the record's values. */
  function SumCounts(counts: seq<LanguageCount>): int
  {
    if |counts| == 0 then 0 else counts[0].count + SumCounts(counts[1..])
  }

  predicate Distinct(ls: seq<string>)
  {
    forall i, j :: 0 <= i < j < |ls| ==> ls[i] != ls[j]
  }

  predicate AllPositive(counts: seq<LanguageCount>)
  {
    forall i :: 0 <= i < |counts| ==> counts[i].count > 0
  }

  /**
   * Reference definition: the commits of the counted entries of `cs` whose
   * language is labelled `lang`.
   */
  function ContributionsFor(cs: seq<RepoContribution>, lang: string): int
  {
    if |cs| == 0 then 0
    else
      var c := cs[|cs| - 1];
      ContributionsFor(cs[..|cs| - 1], lang)
        + (if Counted(c) && Label(c.language.value) == lang then c.contributions else 0)
  }

  /** What `Bump` does to the keys, to one value, and to the sum of values. */
  lemma {:induction false} BumpSpec(counts: seq<LanguageCount>, lang: string, n: int, other: string)
    ensures Labels(Bump(counts, lang, n)) == if lang in Labels(counts) then Labels(counts) else Labels(counts) + [lang]
    ensures Lookup(Bump(counts, lang, n), other) == Lookup(counts, other) + (if other == lang then n else 0)
    ensures SumCounts(Bump(counts, lang, n)) == SumCounts(counts) + n
  {
    if |counts| > 0 && counts[0].language != lang {
      BumpSpec(counts[1..], lang, n, other);
      assert Labels(counts) == [counts[0].language] + Labels(counts[1..]);
    }
  }

  lemma {:induction false} BumpKeepsPositive(counts: seq<LanguageCount>, lang: string, n: int)
    requires AllPositive(counts) && n > 0
    ensures AllPositive(Bump(counts, lang, n))
  {
    if |counts| > 0 && counts[0].language != lang {
      BumpKeepsPositive(counts[1..], lang, n);
    }
  }

  lemma BumpKeepsDistinct(counts: seq<LanguageCount>, lang: string, n: int)
    requires Distinct(Labels(counts))
    ensures Distinct(Labels(Bump(counts, lang, n)))
  {
    BumpSpec(counts, lang, n, lang);
    var ls := Labels(Bump(counts, lang, n));
    if lang !in Labels(counts) {
      forall i, j | 0 <= i < j < |ls| ensures ls[i] != ls[j] {
        if j == |ls| - 1 {
          assert ls[i] in Labels(counts);
        } else {
          assert ls[i] == Labels(counts)[i] && ls[j] == Labels(counts)[j];
        }
      }
    }
  }

  lemma {:induction false} LookupPositive(counts: seq<LanguageCount>, lang: string)
    requires AllPositive(counts)
    ensures lang in Labels(counts) <==> Lookup(counts, lang) > 0
  {
    if |counts| > 0 {
      LookupPositive(counts[1..], lang);
    }
  }

  /**
   * The record built by the `forEach` holds, for every label, exactly the
   * commits of the counted entries carrying it; its keys are distinct, each
   * value is positive, the values add up to `totalCommitsWithLanguage`, and a
   * label is a key exactly when some counted entry carries it.
   */
  lemma {:induction false} LanguageCountsSpec(cs: seq<RepoContribution>, lang: string)
    ensures Lookup(LanguageCounts(cs), lang) == ContributionsFor(cs, lang)
    ensures Distinct(Labels(LanguageCounts(cs)))
    ensures AllPositive(LanguageCounts(cs))
    ensures SumCounts(LanguageCounts(cs)) == CommitsWithLanguage(cs)
    ensures lang in Labels(LanguageCounts(cs)) <==> ContributionsFor(cs, lang) > 0
  {
    if |cs| > 0 {
      var init, c := cs[..|cs| - 1], cs[|cs| - 1];
      LanguageCountsSpec(init, lang);
      var prev := LanguageCounts(init);
      if Counted(c) {
        var l := Label(c.language.value);
        BumpSpec(prev, l, c.contributions, lang);
        BumpKeepsPositive(prev, l, c.contributions);
        BumpKeepsDistinct(prev, l, c.contributions);
      }
      LookupPositive(LanguageCounts(cs), lang);
    }
  }

  /**
   * Reference definition by raw language name: the commits of the counted
   * entries of `cs` whose largest language is named `name`.
   */
  function RawFor(cs: seq<RepoContribution>, name: string): int
  {
    if |cs| == 0 then 0
    else
      var c := cs[|cs| - 1];
      RawFor(cs[..|cs| - 1], name) + (if Counted(c) && c.language.value == name then c.contributions else 0)
  }

  /** Labelling in terms of raw names: the merged label gathers three raw names, every other label one. */
  lemma {:induction false} ContributionsForRaw(cs: seq<RepoContribution>, l: string)
    ensures l == MergedLabel ==>
      ContributionsFor(cs, l) == RawFor(cs, "TypeScript") + RawFor(cs, "JavaScript") + RawFor(cs, MergedLabel)
    ensures l != MergedLabel && l != "TypeScript" && l != "JavaScript" ==> ContributionsFor(cs, l) == RawFor(cs, l)
  {
    if |cs| > 0 {
      ContributionsForRaw(cs[..|cs| - 1], l);
    }
  }

  /**
   * JavaScript and TypeScript commits are counted together under
   * "TypeScript / JavaScript" and never under their own names; every other
   * language is counted under its own name.
   */
  lemma NoSeparateJavaScriptOrTypeScript(cs: seq<RepoContribution>, l: string)
    ensures "TypeScript" !in Labels(LanguageCounts(cs))
    ensures "JavaScript" !in Labels(LanguageCounts(cs))
    ensures Lookup(LanguageCounts(cs), MergedLabel) ==
      RawFor(cs, "TypeScript") + RawFor(cs, "JavaScript") + RawFor(cs, MergedLabel)
    ensures l != MergedLabel && l != "TypeScript" && l != "JavaScript" ==>
      Lookup(LanguageCounts(cs), l) == RawFor(cs, l)
  {
    LanguageCountsSpec(cs, "TypeScript");
    LanguageCountsSpec(cs, "JavaScript");
    NoCountsFor(cs, "TypeScript");
    NoCountsFor(cs, "JavaScript");
    LanguageCountsSpec(cs, MergedLabel);
    ContributionsForRaw(cs, MergedLabel);
    LanguageCountsSpec(cs, l);
    ContributionsForRaw(cs, l);
  }

  lemma {:induction false} NoCountsFor(cs: seq<RepoContribution>, lang: string)
    requires lang == "TypeScript" || lang == "JavaScript"
    ensures ContributionsFor(cs, lang) == 0
  {
    if |cs| > 0 {
      NoCountsFor(cs[..|cs| - 1], lang);
    }
  }

  /** The `forEach` of `stats.ts` lines 113-127: fills `languageCounts` and `totalCommitsWithLanguage`. */
  method AccumulateLanguages(cs: seq<RepoContribution>) returns (counts: seq<LanguageCount>, total: int)
    ensures counts == LanguageCounts(cs)
    ensures total == CommitsWithLanguage(cs)
  {
    counts, total := [], 0;
    var i := 0;
    while i < |cs|
      invariant 0 <= i <= |cs|
      invariant counts == LanguageCounts(cs[..i])
      invariant total == CommitsWithLanguage(cs[..i])
    {
      var item := cs[i];
      if item.contributions > 0 && item.language.Some? {
        var lang := Label(item.language.value);
        counts := Bump(counts, lang, item.contributions);
        total := total + item.contributions;
      }
      assert cs[..i + 1][..i] == cs[..i];
      i := i + 1;
    }
    assert cs[..|cs|] == cs;
  }

  // ---------------------------------------------------------------------
  // Top languages
  // ---------------------------------------------------------------------

  function CountOf(c: LanguageCount): int
  {
    c.count
  }

  /**
   * `Math.round((count / total) * 100)`, or 0 when `total` is 0, computed
   * exactly: `Math.round(x)` is the floor of `x + 1/2`.
   */
  function Percent(count: int, total: int): int
  {
    if total > 0 then (200 * count + total) / (2 * total) else 0
  }

  /** `Percent` is `100 * count / total` rounded to the nearest integer, halves upwards. */
  lemma PercentRoundsHalfUp(count: int, total: int)
    requires total > 0
    ensures total * (2 * Percent(count, total) - 1) <= 200 * count < total * (2 * Percent(count, total) + 1)
  {
    var p := Percent(count, total);
    var a := 200 * count + total;
    assert a == (2 * total) * p + a % (2 * total);
  }

  lemma PercentMonotone(c1: int, c2: int, total: int)
    requires c1 <= c2
    ensures Percent(c1, total) <= Percent(c2, total)
  {
    if total > 0 {
      var p1, p2 := Percent(c1, total), Percent(c2, total);
      PercentRoundsHalfUp(c1, total);
      PercentRoundsHalfUp(c2, total);
      if p1 > p2 {
        MulMonotone(total, 2 * p2 + 1, 2 * p1 - 1);
        assert false;
      }
    }
  }

  lemma MulMonotone(t: int, a: int, b: int)
    requires t > 0 && a <= b
    ensures t * a <= t * b
  {
  }

  /** A share of the total lies between 0 and 100 percent. */
  lemma PercentInRange(count: int, total: int)
    requires 0 <= count <= total
    ensures 0 <= Percent(count, total) <= 100
  {
    if total > 0 {
      var p := Percent(count, total);
      PercentRoundsHalfUp(count, total);
      if p > 100 {
        MulMonotone(total, 201, 2 * p - 1);
        MulMonotone(200, count, total);
        assert false;
      }
      if p < 0 {
        MulMonotone(total, 2 * p + 1, -1);
        assert false;
      }
    }
  }

  /** The first `MaxLanguages` entries of the record after the stable sort by descending count. */
  function TopCounts(counts: seq<LanguageCount>): (top: seq<LanguageCount>)
    ensures |top| == Min(MaxLanguages, |counts|)
  {
    var ranked := SortDesc(counts, CountOf);
    ranked[..Min(MaxLanguages, |ranked|)]
  }

  function Usage(c: LanguageCount, total: int): LanguageUsage
  {
    LanguageUsage(c.language, Percent(c.count, total))
  }

  /** `top_languages`: the sort, `slice(0, 6)` and `map` chain of `stats.ts` lines 129-138. */
  function TopLanguages(counts: seq<LanguageCount>, total: int): (r: seq<LanguageUsage>)
    ensures |r| == |TopCounts(counts)|
  {
    var top := TopCounts(counts);
    seq(|top|, i requires 0 <= i < |top| => Usage(top[i], total))
  }

  /**
   * The kept entries are entries of the record, at most six, in non-increasing
   * count order, and none of the dropped ones has a larger count than a kept
   * one; equal counts keep the record's order (`SortDescSpec`).
   */
  lemma TopCountsSpec(counts: seq<LanguageCount>)
    ensures |TopCounts(counts)| <= MaxLanguages
    ensures SortedDesc(TopCounts(counts), CountOf)
    ensures forall c :: c in TopCounts(counts) ==> c in counts
    ensures forall c, d :: c in counts && c !in TopCounts(counts) && d in TopCounts(counts) ==> c.count <= d.count
  {
    var ranked := SortDesc(counts, CountOf);
    var top := TopCounts(counts);
    SortDescSpec(counts, CountOf);
    forall c | c in top ensures c in counts {
      assert c in multiset(ranked);
    }
    forall c, d | c in counts && c !in top && d in top ensures c.count <= d.count {
      assert c in multiset(ranked);
      var j :| 0 <= j < |ranked| && ranked[j] == c;
      var i :| 0 <= i < |top| && top[i] == d;
      assert j >= |top|;
      assert ranked[i] == d;
    }
  }

  /**
   * `top_languages` has at most six entries, the `i`-th naming the `i`-th
   * kept language with its rounded share of the total; their percentages never
   * increase along the list, and each lies in [0, 100] when every count is
   * within the total.
   */
  lemma TopLanguagesSpec(counts: seq<LanguageCount>, total: int)
    ensures |TopLanguages(counts, total)| <= MaxLanguages
    ensures forall i :: 0 <= i < |TopLanguages(counts, total)| ==>
      && TopLanguages(counts, total)[i].language == TopCounts(counts)[i].language
      && TopLanguages(counts, total)[i].percent == Percent(TopCounts(counts)[i].count, total)
    ensures forall i, j :: 0 <= i < j < |TopLanguages(counts, total)| ==>
      TopLanguages(counts, total)[i].percent >= TopLanguages(counts, total)[j].percent
    ensures (forall c :: c in counts ==> 0 <= c.count <= total) ==>
      forall u :: u in TopLanguages(counts, total) ==> 0 <= u.percent <= 100
  {
    TopCountsSpec(counts);
    var top := TopCounts(counts);
    var r := TopLanguages(counts, total);
    forall i, j | 0 <= i < j < |r| ensures r[i].percent >= r[j].percent {
      PercentMonotone(top[j].count, top[i].count, total);
    }
    if forall c :: c in counts ==> 0 <= c.count <= total {
      forall u | u in r ensures 0 <= u.percent <= 100 {
        var i :| 0 <= i < |r| && r[i] == u;
        assert top[i] in top;
        PercentInRange(top[i].count, total);
      }
    }
  }

  /** Every value of a record of positive values is at most the sum of the values. */
  lemma {:induction false} CountAtMostSum(counts: seq<LanguageCount>, c: LanguageCount)
    requires AllPositive(counts) && c in counts
    ensures 0 < c.count <= SumCounts(counts)
  {
    var rest := counts[1..];
    assert AllPositive(rest) by {
      forall i | 0 <= i < |rest| ensures rest[i].count > 0 {
        assert rest[i] == counts[i + 1];
      }
    }
    if counts[0] != c {
      assert c in rest;
      CountAtMostSum(rest, c);
    } else {
      SumCountsNonNegative(rest);
    }
  }

  lemma {:induction false} SumCountsNonNegative(counts: seq<LanguageCount>)
    requires AllPositive(counts)
    ensures SumCounts(counts) >= 0
  {
    if |counts| > 0 {
      var rest := counts[1..];
      assert AllPositive(rest) by {
        forall i | 0 <= i < |rest| ensures rest[i].count > 0 {
          assert rest[i] == counts[i + 1];
        }
      }
      SumCountsNonNegative(rest);
    }
  }

  /**
   * The percentages need not add up to 100 or less: two languages with 101 and
   * 99 commits get 51 and 50.
   */
  lemma PercentsMaySumPast100()
    ensures var r := TopLanguages([LanguageCount("A", 101), LanguageCount("B", 99)], 200);
      |r| == 2 && r[0].percent + r[1].percent == 101
  {
    var counts := [LanguageCount("A", 101), LanguageCount("B", 99)];
    assert SortDesc(counts, CountOf) == counts by {
      assert counts[..1][..0] == [];
      assert SortDesc(counts[..1], CountOf) == [counts[0]];
    }
    assert Percent(101, 200) == 51;
    assert Percent(99, 200) == 50;
  }

  /**
   * Ten commits to a TypeScript repository and five to a Go repository rank
   * as 67% "TypeScript / JavaScript" and 33% Go.
   */
  lemma TypeScriptAndGoExample()
    ensures var cs := [RepoContribution(10, Some("TypeScript")), RepoContribution(5, Some("Go"))];
      TopLanguages(LanguageCounts(cs), CommitsWithLanguage(cs)) ==
        [LanguageUsage(MergedLabel, 67), LanguageUsage("Go", 33)]
  {
    var cs := [RepoContribution(10, Some("TypeScript")), RepoContribution(5, Some("Go"))];
    assert cs[..1] == [cs[0]] && cs[..1][..0] == [];
    var counts := [LanguageCount(MergedLabel, 10), LanguageCount("Go", 5)];
    assert LanguageCounts(cs[..1]) == [LanguageCount(MergedLabel, 10)];
    assert Label("Go") == "Go" && |MergedLabel| != |"Go"|;
    assert Bump([LanguageCount(MergedLabel, 10)], "Go", 5) == counts;
    assert LanguageCounts(cs) == counts;
    assert CommitsWithLanguage(cs) == 15;
    assert SortDesc(counts, CountOf) == counts by {
      assert counts[..1][..0] == [];
      assert SortDesc(counts[..1], CountOf) == [counts[0]];
    }
    assert Percent(10, 15) == 67;
    assert Percent(5, 15) == 33;
  }

  // ---------------------------------------------------------------------
  // Sparkline and 30-day commit count
  // ---------------------------------------------------------------------

  /** `weeks.flatMap(w => w.contributionDays).map(d => d.contributionCount)`. */
  function Flatten(weeks: seq<Week>): seq<int>
  {
    if |weeks| == 0 then [] else weeks[0] + Flatten(weeks[1..])
  }

  /** The calendar's days concatenate week by week, keeping chronological order. */
  lemma {:induction false} FlattenAppend(a: seq<Week>, b: seq<Week>)
    ensures Flatten(a + b) == Flatten(a) + Flatten(b)
  {
    if |a| == 0 {
      assert a + b == b;
    } else {
      assert (a + b)[0] == a[0] && (a + b)[1..] == a[1..] + b;
      FlattenAppend(a[1..], b);
    }
  }

  /** `days.slice(-30)`: the last `min(30, |days|)` daily counts, oldest first. */
  function Sparkline(weeks: seq<Week>): (r: seq<int>)
    ensures |r| == Min(SparklineDays, |Flatten(weeks)|)
    ensures Flatten(weeks) == Flatten(weeks)[..|Flatten(weeks)| - |r|] + r
  {
    var days := Flatten(weeks);
    days[(if |days| > SparklineDays then |days| - SparklineDays else 0)..]
  }

  /** `reduce((a, b) => a + b, 0)`. */
  function Sum(s: seq<int>): int
  {
    if |s| == 0 then 0 else Sum(s[..|s| - 1]) + s[|s| - 1]
  }

  lemma {:induction false} SumAppend(a: seq<int>, b: seq<int>)
    ensures Sum(a + b) == Sum(a) + Sum(b)
    decreases |b|
  {
    if |b| == 0 {
      assert a + b == a;
    } else {
      assert (a + b)[..|a + b| - 1] == a + b[..|b| - 1];
      assert (a + b)[|a + b| - 1] == b[|b| - 1];
      SumAppend(a, b[..|b| - 1]);
    }
  }

  lemma {:induction false} SumNonNegative(s: seq<int>)
    requires forall i :: 0 <= i < |s| ==> s[i] >= 0
    ensures Sum(s) >= 0
  {
    if |s| > 0 {
      SumNonNegative(s[..|s| - 1]);
    }
  }

  /** With non-negative daily counts, the 30-day commit count never exceeds the calendar's total. */
  lemma SparklineSumAtMostCalendar(weeks: seq<Week>)
    requires forall i :: 0 <= i < |Flatten(weeks)| ==> Flatten(weeks)[i] >= 0
    ensures Sum(Sparkline(weeks)) <= Sum(Flatten(weeks))
  {
    var days, r := Flatten(weeks), Sparkline(weeks);
    var older := days[..|days| - |r|];
    SumAppend(older, r);
    SumNonNegative(older);
  }

  // ---------------------------------------------------------------------
  // Timeline
  // ---------------------------------------------------------------------

  function Summary(pr: PullRequest): string
  {
    (if pr.merged then "Merged" else "Opened") + " PR in " + pr.repoName + ": " + pr.title
  }

  /** A summary tells whether the pull request was merged, and ends with its title. */
  lemma SummarySpec(pr: PullRequest)
    ensures Summary(pr)[..6] == "Merged" <==> pr.merged
    ensures Summary(pr)[..6] == "Opened" <==> !pr.merged
    ensures |Summary(pr)| >= |pr.title| && Summary(pr)[|Summary(pr)| - |pr.title|..] == pr.title
  {
    var head := (if pr.merged then "Merged" else "Opened") + " PR in " + pr.repoName + ": ";
    assert Summary(pr) == head + pr.title;
    assert Summary(pr)[..6] == head[..6];
    assert "Merged"[0] != "Opened"[0];
  }

  function EntryOf(pr: PullRequest): TimelineEntry
  {
    TimelineEntry(pr.createdAt, PullRequestEntry, Summary(pr), pr.url, pr.isPrivate)
  }

  /** `allTimeline` after the `forEach` that pushes one entry per pull request. */
  function TimelineOf(prs: seq<PullRequest>): seq<TimelineEntry>
  {
    if |prs| == 0 then [] else TimelineOf(prs[..|prs| - 1]) + [EntryOf(prs[|prs| - 1])]
  }

  /** One entry per pull request, in the order of the response. */
  lemma {:induction false} TimelineOfSpec(prs: seq<PullRequest>)
    ensures |TimelineOf(prs)| == |prs|
    ensures forall i :: 0 <= i < |prs| ==> TimelineOf(prs)[i] == EntryOf(prs[i])
  {
    if |prs| > 0 {
      TimelineOfSpec(prs[..|prs| - 1]);
    }
  }

  /** The `forEach` of `stats.ts` lines 160-168, pushing onto `allTimeline`. */
  method BuildTimeline(prs: seq<PullRequest>) returns (all: seq<TimelineEntry>)
    ensures all == TimelineOf(prs)
  {
    all := [];
    var i := 0;
    while i < |prs|
      invariant 0 <= i <= |prs|
      invariant all == TimelineOf(prs[..i])
    {
      var pr := prs[i];
      all := all + [TimelineEntry(pr.createdAt, PullRequestEntry, Summary(pr), pr.url, pr.isPrivate)];
      assert prs[..i + 1][..i] == prs[..i];
      i := i + 1;
    }
    assert prs[..|prs|] == prs;
  }

  /** An entry counted by `prs_last_30_days`: a pull request strictly after `since`. */
  predicate IsRecentPr(e: TimelineEntry, since: int)
  {
    e.kind == PullRequestEntry && e.date > since
  }

  /** `allTimeline.filter(t => t.type === "pr" && new Date(t.date) > thirtyDaysAgo).length`. */
  function CountRecent(es: seq<TimelineEntry>, since: int): nat
  {
    if |es| == 0 then 0
    else CountRecent(es[..|es| - 1], since) + (if IsRecentPr(es[|es| - 1], since) then 1 else 0)
  }

  /** `allTimeline.filter(t => !t.isPrivate)`. */
  function PublicOnly(es: seq<TimelineEntry>): seq<TimelineEntry>
  {
    if |es| == 0 then []
    else PublicOnly(es[..|es| - 1]) + (if !es[|es| - 1].isPrivate then [es[|es| - 1]] else [])
  }

  /** The entries the public filter drops. */
  function PrivateOnly(es: seq<TimelineEntry>): seq<TimelineEntry>
  {
    if |es| == 0 then []
    else PrivateOnly(es[..|es| - 1]) + (if es[|es| - 1].isPrivate then [es[|es| - 1]] else [])
  }

  lemma {:induction false} CountRecentAppend(a: seq<TimelineEntry>, b: seq<TimelineEntry>, since: int)
    ensures CountRecent(a + b, since) == CountRecent(a, since) + CountRecent(b, since)
    decreases |b|
  {
    if |b| == 0 {
      assert a + b == a;
    } else {
      assert (a + b)[..|a + b| - 1] == a + b[..|b| - 1];
      assert (a + b)[|a + b| - 1] == b[|b| - 1];
      CountRecentAppend(a, b[..|b| - 1], since);
    }
  }

  /**
   * The 30-day count takes in private and public pull requests alike: it is
   * the count over the public entries plus the count over the private ones.
   */
  lemma {:induction false} CountRecentIncludesPrivate(es: seq<TimelineEntry>, since: int)
    ensures CountRecent(es, since) == CountRecent(PublicOnly(es), since) + CountRecent(PrivateOnly(es), since)
  {
    if |es| > 0 {
      var init, e := es[..|es| - 1], es[|es| - 1];
      CountRecentIncludesPrivate(init, since);
      CountRecentAppend(PublicOnly(init), if !e.isPrivate then [e] else [], since);
      CountRecentAppend(PrivateOnly(init), if e.isPrivate then [e] else [], since);
    }
  }

  /** The public filter keeps exactly the entries that are not private. */
  lemma {:induction false} PublicOnlySpec(es: seq<TimelineEntry>)
    ensures forall e :: e in PublicOnly(es) <==> e in es && !e.isPrivate
  {
    if |es| > 0 {
      var init := es[..|es| - 1];
      PublicOnlySpec(init);
      assert es == init + [es[|es| - 1]];
    }
  }

  function DateOf(e: TimelineEntry): int
  {
    e.date
  }

  /** `publicTimeline` sorted newest first, then `slice(0, 5)`. */
  function VisibleTimeline(all: seq<TimelineEntry>): (v: seq<TimelineEntry>)
    ensures |v| == Min(MaxTimeline, |PublicOnly(all)|)
  {
    var sorted := SortDesc(PublicOnly(all), DateOf);
    sorted[..Min(MaxTimeline, |sorted|)]
  }

  /**
   * The visible timeline holds at most five entries, none private, each an
   * entry of the full timeline, newest first; no public entry left out is
   * newer than one kept.
   */
  lemma VisibleTimelineSpec(all: seq<TimelineEntry>)
    ensures |VisibleTimeline(all)| <= MaxTimeline
    ensures forall e :: e in VisibleTimeline(all) ==> !e.isPrivate && e in all
    ensures SortedDesc(VisibleTimeline(all), DateOf)
    ensures forall e, d :: e in PublicOnly(all) && e !in VisibleTimeline(all) && d in VisibleTimeline(all) ==>
      e.date <= d.date
  {
    var pub := PublicOnly(all);
    var sorted := SortDesc(pub, DateOf);
    var v := VisibleTimeline(all);
    SortDescSpec(pub, DateOf);
    PublicOnlySpec(all);
    SortedPrefix(sorted, DateOf, |v|);
    forall e | e in v ensures !e.isPrivate && e in all {
      assert e in multiset(sorted);
    }
    forall e, d | e in pub && e !in v && d in v ensures e.date <= d.date {
      assert e in multiset(sorted);
      var j :| 0 <= j < |sorted| && sorted[j] == e;
      var i :| 0 <= i < |v| && v[i] == d;
      assert j >= |v|;
      assert DateOf(sorted[i]) >= DateOf(sorted[j]);
    }
  }

  // ---------------------------------------------------------------------
  // The whole snapshot
  // ---------------------------------------------------------------------

  /** `user.repositories?.totalCount || 0`. */
  function RepositoriesTotal(user: User): int
  {
    match user.repositoriesTotal
    case Some(n) => n
    case None => 0
  }

  /** The snapshot `stats.ts` lines 107-192 compute from a user payload. */
  function Aggregate(user: User, thirtyDaysAgo: int): Snapshot
  {
    var counts := LanguageCounts(user.commitContributions);
    var total := CommitsWithLanguage(user.commitContributions);
    var sparkline := Sparkline(user.weeks);
    var all := TimelineOf(user.pullRequests);
    Snapshot(
      GitHubSummary(
        Sum(sparkline), CountRecent(all, thirtyDaysAgo), RepositoriesTotal(user),
        TopLanguages(counts, total), sparkline),
      VisibleTimeline(all))
  }

  lemma {:induction false} LabelsSpec(counts: seq<LanguageCount>)
    ensures forall i :: 0 <= i < |counts| ==> Labels(counts)[i] == counts[i].language
  {
    if |counts| > 0 {
      LabelsSpec(counts[1..]);
    }
  }

  /** In a record with distinct keys, every pair's value is what a lookup of its key gives. */
  lemma {:induction false} LookupOfMember(counts: seq<LanguageCount>, c: LanguageCount)
    requires Distinct(Labels(counts)) && c in counts
    ensures Lookup(counts, c.language) == c.count
  {
    LabelsSpec(counts);
    if counts[0] != c {
      var rest := counts[1..];
      LabelsSpec(rest);
      assert c in rest;
      assert Distinct(Labels(rest)) by {
        forall i, j | 0 <= i < j < |rest| ensures Labels(rest)[i] != Labels(rest)[j] {
          assert Labels(rest)[i] == Labels(counts)[i + 1] && Labels(rest)[j] == Labels(counts)[j + 1];
        }
      }
      LookupOfMember(rest, c);
    }
  }

  /** Whether `language` appears in `top_languages`. */
  predicate Listed(top: seq<LanguageUsage>, language: string)
  {
    exists u :: u in top && u.language == language
  }

  /**
   * In terms of the contributions: every language listed in `top_languages`
   * has commits, and its percentage is its commits' share of the total; no
   * language with commits that is left out has more commits than a listed one.
   */
  lemma TopLanguagesOfContributions(cs: seq<RepoContribution>)
    ensures var top := TopLanguages(LanguageCounts(cs), CommitsWithLanguage(cs));
      && (forall u :: u in top ==>
            && ContributionsFor(cs, u.language) > 0
            && u.percent == Percent(ContributionsFor(cs, u.language), CommitsWithLanguage(cs)))
      && (forall l, u :: ContributionsFor(cs, l) > 0 && !Listed(top, l) && u in top ==>
            ContributionsFor(cs, l) <= ContributionsFor(cs, u.language))
  {
    var counts := LanguageCounts(cs);
    var total := CommitsWithLanguage(cs);
    var kept := TopCounts(counts);
    var top := TopLanguages(counts, total);
    LanguageCountsSpec(cs, "");
    TopCountsSpec(counts);
    TopLanguagesSpec(counts, total);
    forall u | u in top
      ensures ContributionsFor(cs, u.language) == kept[IndexOf(top, u)].count > 0
      ensures u.percent == Percent(ContributionsFor(cs, u.language), total)
    {
      var i := IndexOf(top, u);
      LookupOfMember(counts, kept[i]);
      LanguageCountsSpec(cs, u.language);
      LabelsSpec(counts);
    }
    forall l, u | ContributionsFor(cs, l) > 0 && !Listed(top, l) && u in top
      ensures ContributionsFor(cs, l) <= ContributionsFor(cs, u.language)
    {
      LanguageCountsSpec(cs, l);
      LabelsSpec(counts);
      var j :| 0 <= j < |counts| && Labels(counts)[j] == l;
      var c := counts[j];
      LookupOfMember(counts, c);
      var i := IndexOf(top, u);
      assert kept[i] in kept;
    }
  }

  /** The position of a member of `s`. */
  function IndexOf<T(==)>(s: seq<T>, x: T): (i: int)
    requires x in s
    ensures 0 <= i < |s| && s[i] == x
  {
    if s[0] == x then 0 else 1 + IndexOf(s[1..], x)
  }

  /** The snapshot's guarantees, gathered. */
  lemma AggregateSpec(user: User, thirtyDaysAgo: int)
    ensures var s := Aggregate(user, thirtyDaysAgo);
      && |s.github.topLanguages| <= MaxLanguages
      && (forall u :: u in s.github.topLanguages ==>
            && ContributionsFor(user.commitContributions, u.language) > 0
            && u.percent == Percent(ContributionsFor(user.commitContributions, u.language),
                                    CommitsWithLanguage(user.commitContributions)))
      && (forall l, u ::
            (ContributionsFor(user.commitContributions, l) > 0 && !Listed(s.github.topLanguages, l) &&
             u in s.github.topLanguages) ==>
              ContributionsFor(user.commitContributions, l) <= ContributionsFor(user.commitContributions, u.language))
      && (forall u :: u in s.github.topLanguages ==> 0 <= u.percent <= 100)
      && (forall i, j :: 0 <= i < j < |s.github.topLanguages| ==>
            s.github.topLanguages[i].percent >= s.github.topLanguages[j].percent)
      && |s.github.contributionSparkline| == Min(SparklineDays, |Flatten(user.weeks)|)
      && s.github.commitsLast30Days == Sum(s.github.contributionSparkline)
      && |s.timeline| <= MaxTimeline
      && (forall e :: e in s.timeline ==> !e.isPrivate)
      && SortedDesc(s.timeline, DateOf)
      && s.github.prsLast30Days >= CountRecent(s.timeline, thirtyDaysAgo)
  {
    var cs := user.commitContributions;
    var counts := LanguageCounts(cs);
    var total := CommitsWithLanguage(cs);
    var all := TimelineOf(user.pullRequests);
    LanguageCountsSpec(cs, "");
    forall c | c in counts ensures 0 <= c.count <= total {
      CountAtMostSum(counts, c);
    }
    TopLanguagesSpec(counts, total);
    TopLanguagesOfContributions(cs);
    VisibleTimelineSpec(all);
    CountRecentIncludesPrivate(all, thirtyDaysAgo);
    VisiblePrefixCount(all, thirtyDaysAgo);
  }

  /** The visible timeline's recent entries are among the public timeline's. */
  lemma VisiblePrefixCount(all: seq<TimelineEntry>, since: int)
    ensures CountRecent(VisibleTimeline(all), since) <= CountRecent(PublicOnly(all), since)
  {
    var pub := PublicOnly(all);
    var sorted := SortDesc(pub, DateOf);
    var v := VisibleTimeline(all);
    SortDescPermutes(pub, DateOf);
    CountRecentAppend(v, sorted[|v|..], since);
    assert sorted == v + sorted[|v|..];
    CountRecentPermutation(sorted, pub, since);
  }

  /** `CountRecent` depends only on which entries there are, not on their order. */
  lemma {:induction false} CountRecentPermutation(a: seq<TimelineEntry>, b: seq<TimelineEntry>, since: int)
    requires multiset(a) == multiset(b)
    ensures CountRecent(a, since) == CountRecent(b, since)
    decreases |a|
  {
    if |a| > 0 {
      var x := a[|a| - 1];
      assert a == a[..|a| - 1] + [x];
      assert x in multiset(b);
      var k :| 0 <= k < |b| && b[k] == x;
      var rest := b[..k] + b[k + 1..];
      assert b == b[..k] + [x] + b[k + 1..];
      assert multiset(b) == multiset(b[..k]) + multiset{x} + multiset(b[k + 1..]);
      assert multiset(a) == multiset(a[..|a| - 1]) + multiset{x};
      assert multiset(rest) == multiset(b[..k]) + multiset(b[k + 1..]);
      assert multiset(a[..|a| - 1]) == multiset(a) - multiset{x};
      assert multiset(rest) == multiset(b) - multiset{x};
      CountRecentPermutation(a[..|a| - 1], rest, since);
      CountRecentAppend(b[..k] + [x], b[k + 1..], since);
      CountRecentAppend(b[..k], [x], since);
      CountRecentAppend(b[..k], b[k + 1..], since);
    }
  }

  /**
   * The shaping of `stats.ts` lines 107-192 as the source runs it: the two `forEach`
   * loops, the filters, the in-place sort of the public timeline and the slices.
   */
  method ProcessUser(user: User, thirtyDaysAgo: int) returns (result: Snapshot)
    ensures result == Aggregate(user, thirtyDaysAgo)
  {
    var languageCounts, totalCommitsWithLanguage := AccumulateLanguages(user.commitContributions);
    var topLanguages := TopLanguages(languageCounts, totalCommitsWithLanguage);
    var last30Days := Sparkline(user.weeks);
    var commitsLast30Days := Sum(last30Days);
    var allTimeline := BuildTimeline(user.pullRequests);
    var prsLast30DaysCount := CountRecent(allTimeline, thirtyDaysAgo);
    var publicEntries := PublicOnly(allTimeline);
    var publicTimeline := new TimelineEntry[|publicEntries|](i requires 0 <= i < |publicEntries| => publicEntries[i]);
    assert publicTimeline[..] == publicEntries;
    SortInPlace(publicTimeline, DateOf);
    var visible := publicTimeline[..Min(MaxTimeline, publicTimeline.Length)];
    result := Snapshot(
      GitHubSummary(
        commitsLast30Days, prsLast30DaysCount, RepositoriesTotal(user), topLanguages, last30Days),
      visible);
  }
}
