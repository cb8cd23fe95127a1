# Keyword point-value core, in Dafny

This project models the analytic core of a keyword-research web app (`app.py`). The app reads a spreadsheet of keywords and their metrics (search volume, CPC, competition). The core then works in four steps:

1. **Deduplication.** It drops near-duplicate keyword rows. A row is dropped if its exact keyword appeared in an earlier row. It is also dropped if its keyword is fuzzy-similar (ratio at least 90) to a row kept earlier and all its other columns are equal to that row's.
2. **Percentiles.** It gives every row a percentile for each of the three metrics. A row's rank is the position of the first occurrence of its value in the sorted column, counting from 1. The percentile is `((rank - 0.5) / n) * 100`.
3. **Point Value.** It combines the three percentiles into one score: `(search + (100 - cpc) + (100 - competition)) / 3`.
4. **Search.** It filters rows by fuzzy similarity of their keyword to a query. The default threshold is 40; the result page passes 50.

## How the model is built

- **Similarity library.** `fuzz.ratio` and `str.lower` come from a library outside this model. They are fields of a `Fuzz` value that every operation takes as a parameter. The ratio is any function into 0..100. It is not assumed to be symmetric. The argument order of the code is kept: (new keyword, kept keyword) in deduplication and (row keyword, query) in search.
- **Rows.** A row is `Row(keyword, rest)`, with the Keyword as the first column. `row[1:]` in the code is positional, so `rest` is every other column in order. A cell is `Num(real)` or `Text(string)`.
- **Imperative functions.** The three loop-based functions are methods with loop invariants: `Dedup.FilterDuplicateKeywords`, `Percentile.CalculatePercentile` and `Search.SearchKeyword`. Each is proved equal to a specification function (`Dedup.Dedup`, `Percentile.Percentiles`, `Search.Matching`). The lemmas state what the code promises about those functions.
- **Arithmetic.** Percentiles and point values use exact `real` arithmetic.

Two places where the code decides, and the model follows it:

- **Similarity symmetry.** Only `fuzz.ratio` determines whether similarity is symmetric. Nothing in the code enforces it, so no lemma depends on it.
- **Empty column.** An empty column gives an empty percentile list. The loop body never runs, so nothing is divided by zero.

## Model

| member | source | states |
|---|---|---|
| Records.IsSimilar | app.py:19-20 | A threshold of 0 or less makes every pair similar; a threshold above 100 makes no pair similar. |
| Records.SimilarIsCaseInsensitive | app.py:19-20 | Similarity depends on the keywords only through their lower-cased forms. |
| Records.SimilarThresholdMonotone | app.py:19-20 | A pair similar at one threshold is similar at every lower threshold. |
| Records.AreValuesEqual | app.py:22-23 | True exactly when all columns after the Keyword agree position by position, with the same count. |
| Records.ValuesEqualIgnoresKeyword | app.py:22-23 | Changing either keyword never changes the value comparison. |
| Dedup.Mergeable | app.py:38-39 | A row merges into a kept row only when their keywords are similar at 90 (new keyword first) and their other columns are equal; a ratio below 90 never merges. |
| Dedup.Step | app.py:30-45 | One iteration of the outer loop always adds the row's keyword to the seen set, and either leaves the kept rows alone or appends this row. It appends exactly when the keyword is unseen and no kept row is mergeable with it. |
| Dedup.Run | app.py:26-45 | The state after a prefix of the input keeps no more rows than the prefix has. |
| Dedup.Dedup | app.py:25-47 | The output has at most as many rows as the input, and an empty input gives an empty output. |
| Dedup.RunSeenIsKeywords | app.py:29-45 | After any prefix of the input, the seen set is exactly the set of keywords in that prefix. So "already seen" means "appeared in an earlier row". |
| Dedup.DedupSubsequence | app.py:29-47 | The output is a subsequence of the input, in input order. |
| Dedup.DedupWellFormed | app.py:31-45 | Output keywords are pairwise distinct. No kept row is mergeable (similar at 90, in the code's argument order, with equal values) into an earlier kept row. |
| Dedup.DedupKeepsDuplicateFree | app.py:25-47 | An input with distinct keywords and no mergeable pair comes back unchanged. |
| Dedup.DedupIdempotent | app.py:25-47 | Deduplicating twice gives the same rows as deduplicating once. |
| Dedup.DedupPrefix | app.py:36-45 | The rows kept from a prefix of the input are a prefix of the rows kept from the whole input. |
| Dedup.DedupAccountsFor | app.py:29-45 | Each input row falls into one of three cases. (1) Its keyword is new and no kept row matches it, so it is appended. (2) Its exact keyword appeared earlier, so it is dropped even when its values differ. (3) Its keyword is new but it is mergeable into a kept row, so it is dropped. |
| Dedup.EveryRowAccountedFor | app.py:29-45 | The same three cases stated against the final output. A kept row sits right after the rows kept before it. A merged row matches one of those earlier kept rows. |
| Dedup.DedupEmpty | app.py:26-47 | An empty input gives an empty output. |
| Dedup.DedupExample | app.py:36-45 | Example: "seo tools", then "seo tool" with equal values, then "widgets". If "seo tool" is similar to "seo tools" at 90, the result is the first and third rows. |
| Dedup.FilterDuplicateKeywords | app.py:25-47 | The nested loop with a seen set and an early break returns exactly `Dedup`: a subsequence with distinct keywords and no mergeable pair. |
| Percentile.SortAsc | app.py:50 | `sorted` returns an ascending permutation of the column. |
| Percentile.SortedIsUnique | app.py:50 | Any two ascending permutations of a column are equal, so the choice of sort algorithm cannot change the ranks. |
| Percentile.FirstIndex | app.py:54 | `list.index` returns a position holding the value, with no earlier position holding it. |
| Percentile.RankIsCountLess | app.py:50-54 | The first position of a value in the sorted column equals the number of column values strictly smaller than it. |
| Percentile.Pct | app.py:55 | A rank from 1 to n gives a percentile strictly between 0 and 100. |
| Percentile.PctStrictlyIncreasing | app.py:55 | A higher rank gives a strictly higher percentile. |
| Percentile.Percentiles | app.py:49-57 | The percentile column has one entry per row of the column. |
| Percentile.PctBounds | app.py:55 | A rank from 1 to n gives a percentile from 50/n to 100 - 50/n. |
| Percentile.PercentilesInRange | app.py:49-57 | Every percentile of a row lies in [50/n, 100 - 50/n], which is strictly inside (0, 100). |
| Percentile.PercentilesFollowValues | app.py:49-57 | One row's value is at most another's exactly when its percentile is. Equal values get equal percentiles, and only equal values do. |
| Percentile.PercentilesAllEqual | app.py:50-55 | In a column of equal values, every row gets 50/n: ties take the rank of the first tied value. |
| Percentile.PercentilesExample | app.py:49-57 | Example: the column [10, 50, 100] gives [50/3, 50, 250/3]. |
| Percentile.CalculatePercentile | app.py:49-57 | The loop returns one percentile per row, in row order: ((1 + number of smaller values) - 0.5) / n * 100. An empty column gives an empty list. |
| Scoring.PointValue | app.py:61-64 | When the three percentiles lie in [0, 100], so does the point value. |
| Scoring.PointValueMidpoint | app.py:61-64 | Percentiles (50, 50, 50) give a point value of 50. |
| Scoring.PointValueMonotone | app.py:61-64 | The point value is non-decreasing in the search-volume percentile and non-increasing in the CPC and competition percentiles. |
| Scoring.CalculatePointValue | app.py:60-65 | The Point Value column has one entry per row, and each entry is in [0, 100] when that row's percentiles are. |
| Scoring.ScoreColumns | app.py:101-106 | Scoring gives one point value per row of the table. |
| Scoring.ScoresInRange | app.py:101-106 | After the three percentile columns and the point values are computed, every point value is in [0, 100]. |
| Scoring.ScoreDominance | app.py:101-106 | A row with no less search volume, no more CPC and no more competition than another row has a point value at least as high. |
| Search.Matching | app.py:67-73 | The search result never has more rows than the table. |
| Search.MatchingMembers | app.py:67-73 | A row is in the search result exactly when it is in the table and its keyword is similar to the query, in that argument order. |
| Search.MatchingSubsequence | app.py:67-73 | The search result keeps the table's order. |
| Search.MatchingEmpty | app.py:67-73 | The result is empty exactly when no row's keyword is similar to the query. |
| Search.MatchingThresholdMonotone | app.py:67-73 | A search at a higher threshold returns a subsequence of the search at a lower one. For example, the page's 50 returns no more than the default 40. |
| Search.MatchingCaseInsensitive | app.py:67-73 | Two queries with the same lower-cased form return the same rows. |
| Search.MatchingAll | app.py:67-73 | At a threshold of 0 or less, every row is returned. |
| Search.SearchKeyword | app.py:67-73 | The loop returns exactly `Matching`: the similar rows, in table order. |
| Search.ResultView | app.py:116-131 | An empty query shows exactly the whole table. For a non-empty query, the page reports no results exactly when no row is similar at 50. Otherwise it shows exactly the search result at threshold 50: every similar row, only similar rows, in table order. |
| Search.SearchExample | app.py:127-131 | Example: when "seo tools" is similar to "seo" at 50 and "widgets" is not, searching "seo" shows only the "seo tools" row. |
| Export.Head | app.py:163-165 | A row limit keeps a prefix of the table. A non-negative limit keeps the first min(limit, n) rows. A negative limit drops that many rows from the end, as pandas' `head` does. |
| Export.HeadIdempotent | app.py:163-165 | Applying the same non-negative limit twice changes nothing more. |
| Export.HeadExample | app.py:163-165 | Example: a limit of 2 on five rows keeps the first two, in order. |

## Left out

- Flask routes, file uploads, redirects, templates, Excel reading and writing, and directory creation (app.py:1-17, 75-177): I/O outside the core.
- The internals of `fuzz.ratio` and `str.lower`: a foreign library. Both are parameters of the `Fuzz` oracle. The oracle only fixes the ratio's range to 0..100.
- pandas mechanics (`iterrows`, `Series.equals`, building a DataFrame from a list, column assignment): rows are plain sequences. Missing cells (NaN) and their special behaviour in `.equals` and `list.index` are not modelled. `Series.equals` also compares index labels, but rows of one table share them.
- Column assignment in `calculate_point_value` (app.py:64): the code adds the column to the table in place. The model returns the column instead.
- Column selection for scoring (app.py:101-103): the metric columns are given as `seq<real>`, and selecting the named columns is not modelled. The code ranks whatever cells the spreadsheet reader produced and never converts them to numbers. A column of text only is ranked in lexicographic string order by `sorted` and `list.index`; the model covers numeric columns only. A column mixing text and numbers makes `sorted` raise `TypeError`, which the model does not capture.
- Non-text keywords (app.py:20): a Keyword cell holding a number or a missing value makes `.lower()` raise `AttributeError`. The model types every keyword as `string`, so this error is not modelled.
- Floating-point rounding in percentiles and point values: the model uses exact reals.
- The debug `print` in `search_keyword` (app.py:72): a side effect only.
- The required-columns check after deduplication (app.py:96-98): error handling in the web handler.
- The sort of the result page (app.py:134-136): pandas' `sort_values` is library code and its algorithm is not stable. Only "a permutation ordered by the column" could be claimed, and it is not modelled.
- Trimming the query with `.strip()` (app.py:116): `Search.ResultView` takes the query already trimmed.
- Parsing the row limit with `int(...)` (app.py:164): a non-numeric limit raises in the handler and is not modelled. The value `all` skips the limit.
