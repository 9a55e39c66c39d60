# wikistats: the two counting passes

This project models the statistics logic of `wikistats.py`, a command-line
tool that reports user activity on a Wikimedia wiki. The tool has two
reports, and the model covers the counting logic of both.

- **All-time totals** (`alltime`). Every listed user whose lifetime edit
  count is positive has their contributions in the time window counted. Pages
  in the exclusion list are skipped. The resulting `(user, count)` pairs are
  printed largest count first. The sort is Python's stable `sorted(...,
  reverse=True)`, so equal counts keep the dictionary's insertion order.
- **Per-user buckets** (`peruser`). One user's contributions go through
  three filters: excluded page, "created only", and a redirect marker in the
  page's oldest text. Each survivor is counted under its year (`"YYYY"`).
  Subject to an optional month cutoff it is also counted under its month
  (`"YYYY MM"`), and subject to an optional week cutoff under its week
  (`"YYYY WW"`, ISO week number, zero-padded).

The wiki client's answers are plain inputs to the model: the user listing
(`seq<User>`), a function from a user name to that user's contributions
(already bounded by the window), and for each contribution its page title,
revision id, the page's oldest revision id and text, and the year, month and
ISO week of its timestamp. Both passes are pure functions. Each counter has
an independent reference definition, and lemmas connect the two.

Modules, one per file:

- `Records` (records.dfy): the `User` and `Contribution` records.
- `Counter` (counter.dfy): string-keyed counters. `Inc` is the source's
  "increment, or insert 1 on `KeyError`". `Tally` is the reference counter
  of a sequence of keys, and `Total` sums a counter.
- `Decimal` (decimal.dfy): the zero-padded decimal text that `strftime` and
  `zfill` produce (`Pad`), and `int()` reading it back (`Parse`).
- `Redirect` (redirect.dfy): the marker test `^\s*#(виж|redirect)\s+\[\[`
  with `re.I`. It is written as a scanner and proved equal to a
  pattern-shaped reference definition.
- `Ranking` (ranking.dfy): the stable descending sort by count.
- `AllTime` (alltime.dfy): the all-time pass, with the counter kept as a
  sequence of items in insertion order, like a Python dictionary.
- `PerUser` (peruser.dfy): the per-user pass, its reference description and
  its properties.
- `Scenarios` (scenarios.dfy) and `RankingExample` (ranking_example.dfy):
  worked cases.

Two behaviours of the source differ from what a reader might expect. The
model keeps both as written and proves what they amount to:

- Each cutoff check compares only the year. The second test of each pair
  (wikistats.py:70-71 and 81-82) requires the year to be before the cutoff,
  which the first test has already rejected, so it never fires. A month
  cutoff "2020-06" therefore admits January 2020 (`CutoffComparesYearOnly`,
  `Scenarios.MonthPartIgnoredExample`). This follows the code. A plain
  reading of "month stats since YYYY-mm" would compare year and month.
- A failed month cutoff leaves the loop turn with `continue`, so that
  contribution is also left out of `weeks`, whatever the week cutoff is
  (`PerUser.MonthCutoffSkipsWeeks`).

The redirect pattern needs at least one whitespace character between the
token and `[[` (`Scenarios.NoSpaceNoRedirect`). It also accepts leading
whitespace and either case.

## Model

| member | source | states |
|---|---|---|
| Counter.Inc | wikistats.py:62-65 | incrementing a key adds it with count 1 when it is missing, adds one to it when present, and leaves every other key's count alone |
| Counter.TallySnoc | wikistats.py:62-65 | incrementing a counter for one more key is the same as counting the extended key sequence from scratch |
| Counter.TotalInc | wikistats.py:62-65 | each increment raises the sum of all counts by exactly one |
| Counter.TotalTally | wikistats.py:62-65 | the counts of a tallied key sequence add up to its length |
| Decimal.Pad | wikistats.py:58-60 | the year, month and week text is all digits and at least the padded width, and carries no leading zero beyond the padding, so with `Decimal.ParsePad` it is exactly the text `strftime` and `zfill(2)` produce |
| Decimal.Parse | wikistats.py:68-71 | `int()` of a digit string; no contract of its own, `Decimal.ParsePad` states that it reads back a padded number |
| Decimal.ParsePad | wikistats.py:58-60 | `int()` of the zero-padded text gives back the year, month or week number it was made from |
| Decimal.PadInjective | wikistats.py:58-60 | different numbers never get the same padded text |
| Decimal.SplitAtSpace | wikistats.py:74 | a key made of two digit strings joined by a space determines both halves |
| Redirect.SkipSpace | wikistats.py:53 | a greedy `\s*` or `\s+` stops at the first non-whitespace position, or at the end of the text |
| Redirect.IsRedirect | wikistats.py:52-56 | the scanner for the redirect marker; no contract of its own, `Redirect.IsRedirectMatchesPattern` states that it accepts exactly the texts the pattern matches |
| Redirect.IsRedirectMatchesPattern | wikistats.py:52-56 | the scanner accepts a text exactly when the text starts with whitespace, `#`, either token in any case, at least one whitespace and `[[` |
| Redirect.IsRedirectSound | wikistats.py:52-56 | every text the scanner accepts has the pattern's shape |
| Redirect.IsRedirectComplete | wikistats.py:52-56 | every text with the pattern's shape is accepted by the scanner |
| Ranking.SortByCount | wikistats.py:33 | the ranking is non-increasing in count, is a permutation of the counter's items, and lists the items of each count in their original order |
| Ranking.SortedUnique | wikistats.py:33 | any stable descending sort gives the same result, so the model's sort agrees with Python's `sorted(..., reverse=True)` |
| AllTime.ActiveIndices | wikistats.py:21-23 | the positions of the listing whose edit count is positive, each once, in increasing order, and no others |
| AllTime.ActiveNames | wikistats.py:21-23 | the kept names are the names at exactly the active positions, in listing order, so a name listed twice is kept twice; a name is kept exactly when some listed user of that name has a positive edit count |
| AllTime.ActiveNamesMultiplicity | wikistats.py:21-23 | a name occurs among the kept names once for every listed user of that name with a positive edit count |
| AllTime.ActiveNamesOnce | wikistats.py:21-23 | when no name is listed twice, no name is kept twice |
| AllTime.Bump | wikistats.py:29-32 | a known user's item is updated in place, a new user's item is appended, and only that user's count grows, by one |
| AllTime.CountUser | wikistats.py:26-32 | one user's loop adds the number of contributions outside the excluded pages to that user's count; a user with none gets no item |
| AllTime.CountAll | wikistats.py:24-32 | after both loops, each user's count is the number of their contributions outside the excluded pages (times the number of listings of the name); items appear in order of first contribution, and all counts are positive |
| AllTime.AllTimeRanking | wikistats.py:18-35 | the whole `alltime` pass; no contract of its own, `AllTime.AllTimeRankingSpec` states what it computes |
| AllTime.AllTimeRankingSpec | wikistats.py:18-35 | a user is ranked iff active with at least one counted contribution, once each, with that count; counts never increase down the ranking; ties keep insertion order |
| AllTime.DistinctListingCounts | wikistats.py:18-35 | when no name is listed twice, each ranked user's count is exactly the number of their contributions outside the excluded pages |
| AllTime.ItemsDetermined | wikistats.py:29-32 | a counter with distinct users is fixed by its users and their counts |
| PerUser.Collect | wikistats.py:46-87 | each bucket of the statistics is the tally of the keys of exactly the contributions that reach it |
| PerUser.PassesCutoff | wikistats.py:67-72 | the two cutoff tests as written; no contract of its own, `PerUser.CutoffComparesYearOnly` states what they amount to |
| PerUser.CutoffComparesYearOnly | wikistats.py:67-72 | a cutoff test fails exactly when the year is before the cutoff's year; the month or week part is never consulted |
| PerUser.Admitted | wikistats.py:48-57 | the three short-circuit filters; no contract of its own, `PerUser.AdmittedReachesYears` states which contributions pass them |
| PerUser.AdmittedReachesYears | wikistats.py:48-57 | a contribution passes the three filters exactly when its page is not excluded, it is the page's first revision (if created-only), and the oldest text has no redirect marker (unless redirects are included) |
| PerUser.Step | wikistats.py:48-87 | one turn of the loop; no contract of its own, `PerUser.StepBuckets` states its effect on each bucket |
| PerUser.StepBuckets | wikistats.py:58-87 | one loop turn increments `years`, `months` and `weeks` under the contribution's keys exactly for the buckets it reaches and changes nothing else |
| PerUser.BucketTotals | wikistats.py:58-87 | the counts of `years` add up to the number of contributions passing the filters, whatever the cutoffs; weeks total at most months, which total at most years |
| PerUser.KeyForInjective | wikistats.py:58-60 | the keys "YYYY", "YYYY MM" and "YYYY WW" are equal only for equal year and month or week |
| PerUser.BucketCount | wikistats.py:58-87 | the count under a year, month or week key is the number of contributions reaching that bucket with that year and month or week; a key with none is absent |
| PerUser.ExcludedPagesIgnored | wikistats.py:48-49 | removing every contribution to an excluded page leaves all three buckets unchanged |
| PerUser.YearsIgnoreCutoffs | wikistats.py:62-65 | the `years` bucket is the same for every choice of month and week cutoff |
| PerUser.MonthCutoffSkipsWeeks | wikistats.py:67-76 | a filtered-in contribution before the month cutoff's year is counted in `years` only, not in `months` or `weeks` |
| PerUser.RejectedChangesNothing | wikistats.py:48-57 | a contribution failing any filter leaves all three buckets unchanged |
| PerUser.NoFilterCountsAll | wikistats.py:48-65 | with no excluded page, created-only off and redirects included, every contribution is counted in `years` |
| Scenarios.RedirectWithLeadingSpace | wikistats.py:52-56 | " #REDIRECT  [[Foo]]" carries the marker |
| Scenarios.RedirectBulgarianCapitals | wikistats.py:52-56 | "#ВИЖ [[X]]" carries the marker |
| Scenarios.NoSpaceNoRedirect | wikistats.py:52-56 | "#REDIRECT[[Foo]]" does not carry the marker |
| Scenarios.MonthCutoffExample | wikistats.py:62-76 | with month cutoff 2020-01, a January 2019 contribution gives years {"2019": 1} and empty months and weeks |
| Scenarios.MonthPartIgnoredExample | wikistats.py:67-76 | with month cutoff 2020-06, a January 2020 contribution is counted under months "2020 01" |
| RankingExample.RankingTiesExample | wikistats.py:18-35 | users listed Carol, Alice, Bob with 2, 5 and 5 contributions are ranked Alice 5, Bob 5, Carol 2 |

## Left out

- The wiki client (`pwb.Site`, `pwb.User`, `allusers`, `contributions`, `oldest_revision`, `getOldVersion`) is a network library. Its results are inputs: the user listing, a function from name to contributions, and the contribution record's fields.
- `MAXCONTRIB` and the `start=asof`/`end=since` window, and the namespace filter: the library applies them. The contribution sequences are taken as already bounded and filtered.
- Timestamps and `datetime`: year, month and ISO week are given fields. The week key pairs the calendar year with the ISO week number, as `strftime('%Y')` and `isocalendar()[1]` do. The ISO calendar itself is not re-derived.
- Decimal.Pad: `strftime('%Y')` for years below 1000 depends on the platform; the model pads to four digits.
- Malformed cutoff strings: `int()` failures on `months_since`/`weeks_since` are not modelled. A cutoff is an already-parsed (year, part) pair, and an absent or empty cutoff is `None`.
- Redirect.Lower: `re.I` is modelled as lower-casing Basic Latin and basic Cyrillic capitals. Python's extra case equivalences (for example U+0130, U+0131 and U+1C80 matching `i` or `в`) are left out. Whitespace is exactly the set `str.isspace()` accepts.
- A missing oldest text (`getOldVersion` returning `None`) raises in the source; the model always has a text.
- The exclusion list is a set of titles. An empty list or `None` both mean "exclude nothing", which is what the source's `excludes and ...` test does.
- Output: `print(c, u)`, `json.dumps(..., sort_keys=True, indent=4)`, `init_parser` and `main` (argument parsing and site-string splitting) are I/O and plumbing. The passes return their results instead of printing them.
- Running a pass twice gives the same result because the model's passes are pure functions. No separate lemma states this.
