# Personal site: GitHub statistics endpoint and command palette

This project models two parts of a personal web site:

- **The `/api/stats` endpoint.** `fetchGitHubData` serves a snapshot of the owner's GitHub activity. The snapshot is held in a one-hour in-memory cache. When there is no token or the upstream request fails, the endpoint falls back to a static mock snapshot. On the live path it computes:
  - per-language commit totals, with JavaScript and TypeScript merged;
  - the top six languages with rounded percentages;
  - a 30-day contribution sparkline and its sum;
  - a 30-day pull-request count, including private ones;
  - a public, newest-first timeline of at most five pull requests.
- **The command palette.** This is a React component with:
  - a fixed list of navigation actions plus one action per project;
  - a case-insensitive label filter;
  - the keyboard and mouse handlers that drive `isOpen`, `query` and `activeIndex`.

Modules:

- `Wrappers` (`wrappers.dfy`): `Option`.
- `Sorting` (`sorting.dfy`): the stable sort into descending key order that `Array.prototype.sort` performs with a `b - a` comparator. `SortDesc` is the specification. `SortInPlace` is an in-place array insertion sort proved equal to it. `StableSortIsUnique` shows that being ordered, being a permutation and keeping runs of equal keys in order determine the result.
- `GitHubStats` (`github_stats.dfy`): the decoded payload, the snapshot, and the computations of lines 107-192 of `stats.ts`. These are pure functions with lemmas. The two `forEach` loops and the in-place sort are methods proved equal to those functions.
- `StatsEndpoint` (`stats_endpoint.dfy`): the module-level cache as the class `StatsService`. Its method `FetchGitHubData` covers the cache check, the fallbacks and the cache update.
- `CommandPalette` (`command_palette.dfy`): the action list, the filter, the cursor arithmetic, and the class `Palette` whose fields are the component's three state variables.

Modelling choices:

- **`languageCounts`** is an association list kept in key-insertion order. `Object.entries` enumerates string keys in that order, and the stable sort keeps it among equal counts, so it decides which of several tied languages are ranked first.
- **`Math.round(count / total * 100)`** is computed exactly as `(200 * count + total) div (2 * total)`, which rounds halves upwards.
- **Timestamps** are integers. The clock reading, "30 days ago" and the outcome of the GraphQL request are parameters.
- **`label`** is a reserved word in Dafny, so an action's `label` is called `caption`.

## Model

| member | source | states |
|---|---|---|
| GitHubStats.Label | src/pages/api/stats.ts:118-122 | JavaScript and TypeScript are both labelled "TypeScript / JavaScript" and never labels of their own; every other language keeps its name |
| GitHubStats.BumpSpec | src/pages/api/stats.ts:124 | adding commits under a label adds them to that label's value only, appends the label if new and otherwise keeps the key order, and raises the sum by the same amount |
| GitHubStats.BumpKeepsPositive | src/pages/api/stats.ts:117-124 | adding a positive commit count keeps every value positive |
| GitHubStats.BumpKeepsDistinct | src/pages/api/stats.ts:124 | the record never holds the same label twice |
| GitHubStats.LookupPositive | src/pages/api/stats.ts:124 | in a record of positive values, a label is a key exactly when its value is positive |
| GitHubStats.LanguageCountsSpec | src/pages/api/stats.ts:108-127 | for every label, the record holds exactly the commits of the counted repositories carrying it (reference definition `ContributionsFor`); keys are distinct, values positive, and their sum equals `totalCommitsWithLanguage`; a label is a key iff some counted repository carries it |
| GitHubStats.ContributionsForRaw | src/pages/api/stats.ts:117-124 | by raw language name (reference `RawFor`): the merged label gathers the commits of TypeScript, JavaScript and "TypeScript / JavaScript" repositories, and every other label exactly those of its own name |
| GitHubStats.NoSeparateJavaScriptOrTypeScript | src/pages/api/stats.ts:117-124 | neither "TypeScript" nor "JavaScript" is ever a key; the "TypeScript / JavaScript" value is the sum of the TypeScript, JavaScript and "TypeScript / JavaScript" commits; every other label's value is the commits of its own name |
| GitHubStats.NoCountsFor | src/pages/api/stats.ts:120-122 | no commits are ever counted under "TypeScript" or "JavaScript" |
| GitHubStats.AccumulateLanguages | src/pages/api/stats.ts:108-127 | the `forEach` loop yields exactly the record and total that `LanguageCountsSpec` describes |
| GitHubStats.PercentRoundsHalfUp | src/pages/api/stats.ts:134-137 | the percentage is 100·count/total rounded to the nearest integer, halves upwards |
| GitHubStats.PercentMonotone | src/pages/api/stats.ts:134-137 | a larger count never gets a smaller percentage |
| GitHubStats.PercentInRange | src/pages/api/stats.ts:134-137 | a count between 0 and the total gets a percentage between 0 and 100 |
| GitHubStats.TopCounts | src/pages/api/stats.ts:129-131 | keeps min(6, number of languages) entries |
| GitHubStats.TopCountsSpec | src/pages/api/stats.ts:129-131 | at most six entries, all taken from the record, in non-increasing count order; no dropped language has more commits than a kept one |
| GitHubStats.TopLanguages | src/pages/api/stats.ts:129-138 | one usage entry per kept language |
| GitHubStats.TopLanguagesSpec | src/pages/api/stats.ts:129-138 | at most six entries; the i-th names the i-th kept language with `Percent` of its count; percentages non-increasing, each in [0, 100] when every count is within the total |
| GitHubStats.LabelsSpec | src/pages/api/stats.ts:129 | the keys of the record are its pairs' languages, position by position |
| GitHubStats.LookupOfMember | src/pages/api/stats.ts:124-129 | in a record with distinct keys, each pair's value is the lookup of its key |
| GitHubStats.TopLanguagesOfContributions | src/pages/api/stats.ts:108-138 | every listed language has commits and its percentage is its commits' rounded share of the total; no language with commits that is left out has more commits than a listed one |
| GitHubStats.CountAtMostSum | src/pages/api/stats.ts:124-125 | every language's count lies between 1 and the total of commits with a language |
| GitHubStats.SumCountsNonNegative | src/pages/api/stats.ts:124-125 | a record of positive values has a non-negative sum |
| GitHubStats.PercentsMaySumPast100 | src/pages/api/stats.ts:134-137 | the rounded percentages can add up to 101 (counts 101 and 99 out of 200) |
| GitHubStats.TypeScriptAndGoExample | src/pages/api/stats.ts:113-138 | 10 TypeScript commits and 5 Go commits rank as 67% "TypeScript / JavaScript", then 33% Go |
| GitHubStats.FlattenAppend | src/pages/api/stats.ts:143 | the days of consecutive weeks concatenate in calendar order |
| GitHubStats.Sparkline | src/pages/api/stats.ts:141-144 | the sparkline is the last min(30, number of days) daily counts, in calendar order |
| GitHubStats.SumAppend | src/pages/api/stats.ts:147-150 | the sum of two concatenated lists is the sum of their sums |
| GitHubStats.SumNonNegative | src/pages/api/stats.ts:147-150 | non-negative counts have a non-negative sum |
| GitHubStats.SparklineSumAtMostCalendar | src/pages/api/stats.ts:141-150 | with non-negative daily counts, `commits_last_30_days` is at most the sum over the whole calendar |
| GitHubStats.SummarySpec | src/pages/api/stats.ts:164 | a summary starts with "Merged" exactly when the PR was merged, and with "Opened" exactly when it was not, and ends with the PR title |
| GitHubStats.TimelineOfSpec | src/pages/api/stats.ts:156-168 | one timeline entry per pull request, in response order |
| GitHubStats.BuildTimeline | src/pages/api/stats.ts:156-168 | the push loop builds exactly that timeline |
| GitHubStats.CountRecentAppend | src/pages/api/stats.ts:171-173 | the recent-PR count of a concatenation is the sum of the counts |
| GitHubStats.CountRecentIncludesPrivate | src/pages/api/stats.ts:170-173 | `prs_last_30_days` counts public and private pull requests alike: it is the public count plus the private count |
| GitHubStats.PublicOnlySpec | src/pages/api/stats.ts:175-176 | the public filter keeps exactly the entries that are not private |
| GitHubStats.VisibleTimeline | src/pages/api/stats.ts:176-191 | the visible timeline has min(5, number of public entries) entries |
| GitHubStats.VisibleTimelineSpec | src/pages/api/stats.ts:175-191 | at most five entries, none private, all from the full timeline, newest first; no public entry left out is newer than one shown |
| GitHubStats.AggregateSpec | src/pages/api/stats.ts:107-192 | the snapshot gathered: top languages bounded, ordered and within [0, 100], each with commits and its percentage their share of the total, none left out with more commits than a listed one; sparkline length and sum; timeline bounded, public and ordered; the PR count at least the visible timeline's recent entries |
| GitHubStats.VisiblePrefixCount | src/pages/api/stats.ts:170-191 | the visible timeline never has more recent PRs than the public timeline |
| GitHubStats.CountRecentPermutation | src/pages/api/stats.ts:171-181 | the recent-PR count does not depend on the order of the entries |
| GitHubStats.ProcessUser | src/pages/api/stats.ts:107-192 | the imperative processing (loops, filters, in-place sort, slices) computes exactly `Aggregate` |
| Sorting.InsertPermutes | src/pages/api/stats.ts:179-181 | inserting adds exactly the inserted element |
| Sorting.SortDescPermutes | src/pages/api/stats.ts:179-181 | the sort permutes its input |
| Sorting.InsertSorted | src/pages/api/stats.ts:179-181 | inserting into a sorted list keeps it sorted |
| Sorting.SortDescSorted | src/pages/api/stats.ts:179-181 | the sort orders by non-increasing key (`b - a` comparator) |
| Sorting.InsertWithKey | src/pages/api/stats.ts:179-181 | inserting appends to the run of its key and leaves the other runs alone |
| Sorting.SortDescStable | src/pages/api/stats.ts:129-130 | the sort is stable: equal keys keep their input order |
| Sorting.SortDescSpec | src/pages/api/stats.ts:129-130 | sorted, a permutation, and stable |
| Sorting.WithKeyEmpty | src/pages/api/stats.ts:179-181 | a list with no element of a key has an empty run for it |
| Sorting.WithKeyNonEmpty | src/pages/api/stats.ts:179-181 | every element's key has a non-empty run |
| Sorting.StableSortIsUnique | src/pages/api/stats.ts:179-181 | two sorted lists with the same runs of equal keys are equal, so every stable descending sort gives the same result |
| Sorting.SortedPrefix | src/pages/api/stats.ts:191 | a prefix of a sorted list is sorted, and nothing after it has a larger key |
| Sorting.InsertAt | src/pages/api/stats.ts:179-181 | insertion places the element just after the last element whose key is at least its own |
| Sorting.InsertLast | src/pages/api/stats.ts:179-181 | one step of the in-place insertion sort performs `Insert` on the prefix and leaves the rest alone |
| Sorting.SortInPlace | src/pages/api/stats.ts:179-181 | the in-place array sort leaves exactly the stable descending sort of its old contents |
| StatsEndpoint.StatsService.constructor | src/pages/api/stats.ts:1-7 | the cache starts empty with `lastFetchTime` 0 |
| StatsEndpoint.StatsService.FetchGitHubData | src/pages/api/stats.ts:9-204 | a cache entry younger than one hour is returned unchanged; otherwise no token, a failed request, GraphQL errors or a missing user return the mock snapshot and leave the cache alone; otherwise the computed snapshot is returned, cached and stamped with the call's time; only live snapshots are ever cached |
| StatsEndpoint.StatsService.FetchTwice | src/pages/api/stats.ts:9-13 | a second call within the hour returns the same snapshot as the first when the first came from the cache or refreshed it |
| CommandPalette.ProjectActionsSpec | src/components/CommandPalette.tsx:61-65 | one project action per project, in project order |
| CommandPalette.FixedIdIsNotProjectId | src/components/CommandPalette.tsx:25-62 | no fixed action id has the form `project-<slug>` |
| CommandPalette.ProjectIdSpec | src/components/CommandPalette.tsx:53-62 | a project id never equals `copy-email`, and different slugs give different ids |
| CommandPalette.ActionsLayout | src/components/CommandPalette.tsx:25-66 | six fixed actions, then the project actions at their positions |
| CommandPalette.ActionsCopyEmail | src/components/CommandPalette.tsx:52-65 | the only action with id `copy-email` is the copy action |
| CommandPalette.ActionsDistinct | src/components/CommandPalette.tsx:25-66 | action ids are distinct when project slugs are |
| CommandPalette.ActionsSpec | src/components/CommandPalette.tsx:25-66 | the action list's layout, id and label forms, the copy-email invariant, and distinct ids for distinct slugs |
| CommandPalette.IncludesSpec | src/components/CommandPalette.tsx:69 | `includes` holds exactly when the needle occurs at some position of the haystack |
| CommandPalette.FilteredAppend | src/components/CommandPalette.tsx:68-70 | filtering keeps order: it distributes over concatenation |
| CommandPalette.FilteredMembers | src/components/CommandPalette.tsx:68-70 | an action is listed iff it is an action whose lower-cased label contains the lower-cased query; the list never grows |
| CommandPalette.FilteredEmptyQuery | src/components/CommandPalette.tsx:68-70 | the empty query lists every action |
| CommandPalette.LowerIdempotent | src/components/CommandPalette.tsx:69 | lower-casing twice is lower-casing once |
| CommandPalette.FilteredIgnoresQueryCase | src/components/CommandPalette.tsx:68-70 | the query's case does not matter |
| CommandPalette.CursorWraps | src/components/CommandPalette.tsx:102-109 | on a non-empty list, ArrowDown goes to the next entry and wraps from last to first, ArrowUp to the previous one and wraps from first to last, and they undo each other |
| CommandPalette.CursorStaysOk | src/components/CommandPalette.tsx:102-109 | neither arrow key moves the cursor off the list |
| CommandPalette.EmptyListArrowLosesCursor | src/components/CommandPalette.tsx:102-115 | as written, an arrow key with no matches sets the cursor to NaN, and clearing the query does not restore it |
| CommandPalette.ArrowAsWrittenAgrees | src/components/CommandPalette.tsx:102-109 | on a non-empty list, the source's arithmetic and `NextIndex`/`PrevIndex` agree |
| CommandPalette.Palette.constructor | src/components/CommandPalette.tsx:19-25 | closed, empty query, cursor at 0, actions built from the projects |
| CommandPalette.Palette.ResetOnOpen | src/components/CommandPalette.tsx:93-99 | opening clears the query and puts the cursor at the top |
| CommandPalette.Palette.Toggle | src/components/CommandPalette.tsx:74-77 | Cmd/Ctrl+K flips `isOpen`; an opening resets query and cursor |
| CommandPalette.Palette.Close | src/components/CommandPalette.tsx:78-86 | closing leaves the query and cursor as they were |
| CommandPalette.Palette.GlobalKeydown | src/components/CommandPalette.tsx:73-87 | the window listener toggles on Cmd/Ctrl+K, closes on Escape, and ignores every other key |
| CommandPalette.Palette.TypeQuery | src/components/CommandPalette.tsx:202-205 | typing sets the query and puts the cursor at the top |
| CommandPalette.Palette.ArrowDown | src/components/CommandPalette.tsx:102-104 | the cursor moves to `NextIndex` over the visible list; the query is kept |
| CommandPalette.Palette.ArrowUp | src/components/CommandPalette.tsx:105-109 | the cursor moves to `PrevIndex` over the visible list; the query is kept |
| CommandPalette.Palette.EscapeInInput | src/components/CommandPalette.tsx:110-115 | Escape in the input clears a non-empty query and stops there; with an empty query the event goes on to the window |
| CommandPalette.Palette.Perform | src/components/CommandPalette.tsx:52-59 | performing the copy action closes the palette; other actions leave the state alone |
| CommandPalette.Palette.Enter | src/components/CommandPalette.tsx:116-133 | Enter performs the highlighted action and leaves the palette closed; with nothing highlighted nothing changes |
| CommandPalette.Palette.Hover | src/components/CommandPalette.tsx:238 | hovering highlights the hovered entry |
| CommandPalette.Palette.Click | src/components/CommandPalette.tsx:227-237 | a click performs the clicked action and closes the palette |
| CommandPalette.Palette.InputKeydown | src/components/CommandPalette.tsx:101-135 | a key in the input runs the input handler, then the window listener unless the handler stopped the event: arrows move the cursor and keep the query; Escape clears the query, keeps the cursor and closes only if the query was already empty; Enter performs and keeps query and cursor; Cmd/Ctrl+K closes and keeps query and cursor; any other key changes nothing |

## Left out

- Network and I/O: the GraphQL request and its JSON decoding, the query text, and `console` output are not modelled. The request's outcome is the parameter `Upstream`. A payload whose processing would throw counts as `Failed`.
- `mock-stats.json`: its contents are an arbitrary snapshot given to the `StatsService` constructor.
- `GET`: building the `Response`, `JSON.stringify` and the `Cache-Control` header are left out. `GET` only calls `fetchGitHubData`.
- Dates: ISO date strings and `new Date()` / `setDate(getDate() - 30)` are not modelled. Dates are integer timestamps, and "30 days ago" is a parameter.
- Floating point: `Math.round(count / total * 100)` is modelled with exact rational arithmetic. A quotient that lands just below a half in binary floating point may round differently from the exact value.
- Concurrency: overlapping requests that both miss the cache and both write it are not modelled. Each call is atomic.
- Key order: `Object.entries` lists integer-like keys (such as "1") before other keys. The model uses insertion order for every key. Language names are not integer-like.
- Absent lists: an absent `commitContributionsByRepository`, `weeks` or `pullRequests` is decoded as an empty list. A repository without language edges is `language == None`.
- `reposContributedTo`: it is taken from `repositories.totalCount` as given, or 0.
- Command palette rendering: the JSX, the CSS, icons, the 50 ms `setTimeout` focus, `preventDefault`, and the component's lifecycle (mounting, unmounting, re-rendering) are not modelled.
- Command palette side effects: `window.location` navigation, the clipboard write, the `alert`, and the umami analytics calls are not modelled. Performing an action returns the `Effect` it would have.
- Lower-casing: `toLowerCase` is modelled for ASCII letters only.
- `CommandPaletteLauncher.tsx`, `src/content/config.ts`, `astro.config.mjs` and `eslint.config.mjs` are not part of this model.
- CommandPalette.Palette.ArrowDown: follows the corrected `NextIndex`, not the source's `% 0` on an empty list. The source's behaviour is in `EmptyListArrowLosesCursor`.
- CommandPalette.Palette.ArrowUp: follows the corrected `PrevIndex`, for the same reason.
- GitHubStats.TopLanguagesSpec: no bound of 100 on the sum of the percentages is claimed: the code can give 101, as `PercentsMaySumPast100` shows.

## Findings

| source | as written | input that shows it | evidently intended | confidence | as-written member | corrected member |
|---|---|---|---|---|---|---|
| src/components/CommandPalette.tsx:102-115 | `activeIndex` becomes `(prev ± 1 …) % filteredActions.length`, which is NaN when nothing matches. Escape then clears the query but keeps the NaN cursor. | Open the palette, type "zzz", press ArrowDown, press Escape. Every action is listed, none is highlighted, Enter does nothing, and further arrows stay at NaN until the palette is reopened, the query is edited or an entry is hovered. | On an empty list the arrow keys leave the cursor where it is, and the cursor always designates a listed action when there is one. | not executed | CommandPalette.EmptyListArrowLosesCursor | CommandPalette.CursorStaysOk |
