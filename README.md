# MySQL general-log query analyser, modelled in Dafny

The analyser reads a MySQL general query log and reports how often each query was run.
`MysqlAnalyzer.analyze` works in four stages:

1. **Extract.** It reads the file line by line. Each line is stripped and matched against
   `^.*Query(.+)`. Lines without a match are skipped. For the others, the captured text
   is stripped again and becomes the line's *fragment*.
2. **Aggregate.** It folds the fragments, in file order, into an insertion-ordered
   dictionary from fragment to count. There are two strategies:
   - **Exact** (`FULL_MATCH`): counts identical fragments.
   - **First fit** (every other type value): groups fragments by similarity. A fragment
     adds one to the first key whose `fuzz.ratio` score against it is above
     `ratio_percent`. If no key scores above it, the fragment is stored with count 1.
3. **Sort.** `_sort` orders the dictionary by count, highest first. The sort is stable,
   so equal counts keep their first-seen order.
4. **Fail.** In first-fit mode, the analysis fails when `ratio_percent` was never set.

Modules:

- `Wrappers`: the `Option` and `Result` types.
- `Text`: Python's `str.strip()`.
- `Extractor`:
  - the regular expression, with the `.`-stops-at-line-feed rule and greedy backtracking
    to the rightmost `Query`;
  - a line's fragment;
  - the fragments of a file.
- `Tables`:
  - the dictionary as a value `Dict`, meaning keys in insertion order plus counts;
  - `FrequencyTable`, a class whose field is updated in place, as the Python dict is.
- `Sorter`: `_sort`, an insertion sort proved descending, a permutation, stable, and
  the unique such ordering.
- `Aggregation`: one step of each strategy, and their folds over a file.
  `AggregationLemmas` holds what is proved about them.
- `Analyzer`: the class `MysqlAnalyzer`. Its methods are:
  - the two aggregators, as in-place updates, the first-fit one with its scanning loop
    and `break`;
  - `ProcessFile`, the loop over the lines;
  - `Analyze`;
  - the constructor and setters.
- `Scenarios`: whole-file facts and worked examples on concrete log lines.

The file is given as its sequence of lines. `fuzz.ratio` is the parameter
`ratio: (string, string) -> int`; any property of it is a hypothesis of the lemma that
needs it.

## Model

| member | source | states |
|---|---|---|
| Text.Strip | src/analyzers/mysql.py:127 | `line.strip()` is the slice left after the leading whitespace; everything after it is whitespace; its first and last characters are not whitespace |
| Text.StripUnpadded | src/analyzers/mysql.py:127 | text with no whitespace at either end is left unchanged by stripping |
| Text.StripTrailingSpaces | src/analyzers/mysql.py:127 | stripping unpadded text followed by whitespace gives back exactly that text |
| Text.StripLeadingSpace | src/analyzers/mysql.py:127 | a leading whitespace character does not affect the result |
| Extractor.FirstLine | src/analyzers/mysql.py:14 | the text a `.`-run from position 0 can cover is the prefix before the first line feed |
| Extractor.MatchQuery | src/analyzers/mysql.py:14 | `findall` finds nothing exactly when no `Query` in the first line has a character after it; otherwise the capture is non-empty and is the rest of that line after the rightmost such `Query` |
| Extractor.MatchQueryAt | src/analyzers/mysql.py:14 | on a one-line string, a `Query` with text after it and no later `Q` that could start another capture yields exactly that text |
| Extractor.MarkerAtEnd | src/analyzers/mysql.py:14 | a one-line string that ends in `Query`, with no `Q` before it, yields no match, because `(.+)` needs one character |
| Extractor.Fragment | src/analyzers/mysql.py:127-130 | strip the line, match, strip the capture; `None` (the line is dropped) exactly when the stripped line has no match; a fragment never has whitespace at either end |
| Extractor.FragmentOfLogLine | src/analyzers/mysql.py:127-130 | a line `p + "Query" + t` with no line feed and no whitespace at either end, where `t` is non-empty and has no `Q`, yields the fragment `strip(t)` |
| Extractor.StripNoLineFeed | src/analyzers/mysql.py:126-127 | a line as iteration delivers it, with at most a final line feed, has no line feed left once stripped |
| Extractor.FragmentNonEmpty | src/analyzers/mysql.py:126-130 | such a line's fragment, when there is one, is never empty |
| Extractor.Fragments | src/analyzers/mysql.py:126-130 | a file yields at most one fragment per line |
| Extractor.FragmentsSnoc | src/analyzers/mysql.py:126-130 | one more line adds its fragment at the end if it matches and adds nothing otherwise |
| Extractor.FragmentsAppend | src/analyzers/mysql.py:126-130 | the fragments of two concatenated files are the concatenation of their fragments |
| Extractor.NoMatchNoFragments | src/analyzers/mysql.py:129 | a file with no matching line yields no fragments |
| Extractor.AllLinesMatch | src/analyzers/mysql.py:126-130 | if every line matches, the fragments are the lines' fragments in file order |
| Extractor.FragmentsCount | src/analyzers/mysql.py:129-130 | the number of fragments equals the number of matching lines |
| Tables.Dict.Items | src/analyzers/base.py:19 | `data.items()` has one pair per key, in insertion order, each with that key's count, and no key twice |
| Tables.Dict.Put | src/analyzers/mysql.py:74 | assigning a count keeps the keys unique and in step with the counts |
| Tables.PutItems | src/analyzers/mysql.py:73-76 | `d[k] = v` replaces the item of an existing key in place; a new key's item is appended; the total changes by the difference |
| Tables.FrequencyTable.constructor | src/analyzers/mysql.py:124 | `result = {}` is a valid empty table |
| Tables.FrequencyTable.Put | src/analyzers/mysql.py:74 | the in-place assignment leaves the table equal to the value-level `Put` of its old value |
| Aggregation.ExactAdd | src/analyzers/mysql.py:73-77 | counting a fragment keeps the table well formed |
| Aggregation.ExactAddItems | src/analyzers/mysql.py:73-77 | a known fragment's count goes up by one in place; a new fragment is appended with count 1 |
| Aggregation.ExactAddTotal | src/analyzers/mysql.py:73-77 | every exact step raises the total by one |
| Aggregation.FirstFit | src/analyzers/mysql.py:99-103 | the chosen key scores above the threshold, and every earlier key does not; `None` means no key does |
| Aggregation.FuzzyAdd | src/analyzers/mysql.py:98-106 | a first-fit step keeps the table well formed |
| Aggregation.FuzzyAddItems | src/analyzers/mysql.py:98-106 | the first passing key gets +1 and nothing else changes; with no passing key the fragment is appended with 1, or an existing key's count is reset to 1 |
| Aggregation.FuzzyAddKeys | src/analyzers/mysql.py:98-106 | old keys stay a prefix; a key is added only when none passes, and then it is the fragment, appended |
| Aggregation.FuzzyAddTotal | src/analyzers/mysql.py:98-106 | the total rises by one, except when a count is reset to 1 |
| Aggregation.ExactCounts | src/analyzers/mysql.py:73-77 | the table built by exact counting is well formed |
| Aggregation.FuzzyGroups | src/analyzers/mysql.py:98-106 | the table built by first-fit grouping is well formed |
| AggregationLemmas.ExactCountsSnoc | src/analyzers/mysql.py:126-130 | one more fragment is one more exact step on the table so far |
| AggregationLemmas.FuzzyGroupsSnoc | src/analyzers/mysql.py:126-130 | one more fragment is one more first-fit step on the table so far |
| AggregationLemmas.ExactCountsCounts | src/analyzers/mysql.py:73-77 | the keys are exactly the distinct fragments, and each count is that fragment's number of occurrences |
| AggregationLemmas.ExactCountsOrder | src/analyzers/mysql.py:73-77 | keys appear in order of first occurrence |
| AggregationLemmas.ExactCountsTotal | src/analyzers/mysql.py:73-77 | the counts add up to the number of fragments |
| AggregationLemmas.FuzzyGroupsPrefix | src/analyzers/mysql.py:98-106 | the keys after a prefix of the fragments are a prefix of the final keys, so representatives are never renamed |
| AggregationLemmas.FuzzyGroupsKeys | src/analyzers/mysql.py:98-106 | every key is one of the fragments, and every count is at least 1 |
| AggregationLemmas.FuzzyGroupsTotal | src/analyzers/mysql.py:98-106 | if every fragment scores above the threshold against itself, the counts add up to the number of fragments |
| AggregationLemmas.FuzzyAddExact | src/analyzers/mysql.py:100 | if the fragment's score against each key of the table passes exactly when the two are equal, a first-fit step is an exact step |
| AggregationLemmas.FuzzyGroupsExact | src/analyzers/mysql.py:98-106 | if, among the file's fragments, a score passes exactly when the two are equal, first-fit grouping of the file equals exact counting |
| AggregationLemmas.FuzzyGroupsCollapse | src/analyzers/mysql.py:98-106 | if every later fragment scores above the threshold against the first, there is one group, keyed by the first fragment, counting all fragments |
| AggregationLemmas.FuzzyGroupsNothingPasses | src/analyzers/mysql.py:104-105 | if no score passes, the keys are the distinct fragments, each with count 1 |
| AggregationLemmas.FirstFitNotBestFit | src/analyzers/mysql.py:99-103 | a fragment scoring 81 against the first key and 99 against the second joins the first |
| AggregationLemmas.OrderSensitivity | src/analyzers/mysql.py:98-106 | when each of two fragments scores above the threshold against the other, whichever comes first becomes the one representative |
| AggregationLemmas.ThresholdNotMonotone | src/analyzers/mysql.py:98-106 | for the fragments `mmmzzzz`, `mmmm`, `mmmmxxxx`, `yyyymmmm`, with the scores the indel ratio gives them (taken as hypotheses), threshold 50 gives three groups and threshold 60 gives two |
| Analyzer.Aggregate | src/analyzers/mysql.py:43-53 | the table `process_file` builds with either line function is well formed |
| Analyzer.AggregateSnoc | src/analyzers/mysql.py:126-130 | one more fragment is one more call of the selected line function |
| Analyzer.MysqlAnalyzer.constructor | src/analyzers/mysql.py:18-19 | stores the type and leaves `ratio_percent` unset |
| Analyzer.MysqlAnalyzer.SetType | src/analyzers/mysql.py:21-22 | replaces the type and keeps `ratio_percent` |
| Analyzer.MysqlAnalyzer.SetRatioPercent | src/analyzers/mysql.py:24-25 | stores any integer as `ratio_percent` and keeps the type |
| Analyzer.MysqlAnalyzer.FullMatchQueries | src/analyzers/mysql.py:73-77 | the in-place update leaves the table equal to one exact step on its old value |
| Analyzer.MysqlAnalyzer.PartialMatchQueries | src/analyzers/mysql.py:98-106 | the loop with `break` leaves the table equal to one first-fit step on its old value |
| Analyzer.MysqlAnalyzer.ProcessFile | src/analyzers/mysql.py:124-131 | returns a fresh table equal to the selected strategy's fold over the file's fragments |
| Analyzer.MysqlAnalyzer.Analyze | src/analyzers/mysql.py:43-54 | `FULL_MATCH` gives the sorted exact counts; any other type gives the sorted first-fit groups at `ratio_percent`, or `MissingRatioPercent` when it was never set |
| Sorter.SortByCount | src/analyzers/base.py:15-23 | the result has one item per input item |
| Sorter.SortDescending | src/analyzers/base.py:15-23 | counts never increase along the result |
| Sorter.SortPermutation | src/analyzers/base.py:15-23 | the result holds the same items as the input, as a multiset |
| Sorter.SortStable | src/analyzers/base.py:15-23 | the items with any given count keep their relative input order |
| Sorter.DescendingUnique | src/analyzers/base.py:15-23 | two descending orderings with the same per-count subsequences are equal |
| Sorter.SortCharacterized | src/analyzers/base.py:15-23 | any descending ordering that keeps each count's input order is exactly the sort's result |
| Sorter.SortOrderedInput | src/analyzers/base.py:15-23 | input already in descending order is returned unchanged |
| Sorter.SortIdempotent | src/analyzers/base.py:15-23 | sorting twice equals sorting once |
| Scenarios.NonMatchingLineIgnored | src/analyzers/mysql.py:128-130 | a line without a match leaves the table of either strategy unchanged |
| Scenarios.ExactTotalIsMatchingLines | src/analyzers/mysql.py:124-131 | in exact mode the counts add up to the number of matching lines |
| Scenarios.RightmostMarker | src/analyzers/mysql.py:14 | `Query x Query y` yields `y`, the text after the rightmost `Query` |
| Scenarios.EarlierMarkerUsed | src/analyzers/mysql.py:127-130 | `Query` + `t` + `Query` + whitespace, with `t` non-empty and free of `Q` and line feeds, yields `strip(t + "Query")`: the strip removes the whitespace, so the first `Query` supplies the capture |
| Scenarios.TrailingMarkerDropped | src/analyzers/mysql.py:127-128 | a one-line string `p + "Query" + w`, with `p` non-empty, not starting with whitespace and free of `Q`, and `w` all whitespace, yields no fragment |
| Scenarios.UsualLine | src/analyzers/mysql.py:127-130 | `... Query q` yields `q` for a plain query text `q` |
| Scenarios.ExactScenario | src/analyzers/mysql.py:43-54 | the lines `u`, `u`, `o` give `[(u, 2), (o, 1)]` in exact mode |
| Scenarios.ExactScenarioExample | src/analyzers/mysql.py:43-54 | the same for two `SELECT` statements on `users` and `orders` |
| Scenarios.FuzzyScenario | src/analyzers/mysql.py:98-106 | at threshold 80, two similar `SELECT`s form one group of 2, keyed by the first, ahead of a dissimilar one |
| Scenarios.NoMatchEmptyResult | src/analyzers/mysql.py:124-131 | a file with no matching line gives an empty result in either mode |

## Left out

- File opening and iteration, in src/analyzers/mysql.py:125-126: the file is its sequence
  of lines. The readability check and menus in src/app.py are also not modelled.
- The internals of `fuzz.ratio` are not modelled, because it is a foreign library. It is a
  parameter. Facts about the scores of the file's own fragments and the table's keys (each
  fragment scores above the threshold against itself; scores pass exactly on equal
  fragments) are stated as lemma hypotheses (`FuzzyGroupsTotal`, `FuzzyGroupsExact`).
- `pattern_connect` (src/analyzers/mysql.py:15) is not modelled, because nothing uses it.
- The MySQL logger session, `src/db.py` and `src/app.py` are not part of this model. They
  are network I/O, sleeping and interactive prompts.
- The default `type = FULL_MATCH` of `__init__` (src/analyzers/mysql.py:18) is not
  modelled: the constructor always takes the type explicitly.
- The default `ratio_percent = 80` in the signature of `_get_partial_match_queryes` is not
  modelled. `analyze` always passes the field explicitly, so the default is never used.
- The code has no threshold validation, and none is modelled: `set_ratio_percent` stores
  any integer.
- `Analyze` has one failure: reading `self.ratio_percent` before it was ever set. In
  Python that raises `AttributeError`; here it returns `Failure(MissingRatioPercent)`.
- Analyzer.MysqlAnalyzer.ProcessFile: the per-line strip/`findall`/strip of lines 127-130
  is the function `Extractor.Fragment` rather than separate statements.
- Regular-expression engine details beyond this one pattern are not modelled.
- Python's Unicode string model is not modelled. `str.isspace` is a listed set of code
  points.

## Behaviour worth knowing

- The capture follows the **rightmost** `Query` on the line that has text after it
  (`RightmostMarker`).
- A line read from the file never yields an empty fragment (`FragmentNonEmpty`).
- The first strip removes whitespace after a final `Query`. Such a line yields no fragment
  when no earlier `Query` has text after it (`TrailingMarkerDropped` proves this when the
  text before the `Query` is non-empty, free of `Q` and does not start with whitespace).
  Otherwise the earlier `Query` is used: `Query x Query   ` strips to `Query x Query` and
  yields `x Query` (`EarlierMarkerUsed` with `t = " x "`).
- First-fit grouping can reset an existing key's count to 1. This happens when the fragment
  equals that key but scores at most the threshold against every key, itself included. So
  the counts add up to the number of fragments in exact mode. In first-fit mode they do
  exactly when no step resets a count (`FuzzyAddTotal`); `FuzzyGroupsTotal` gives a
  sufficient condition: every fragment scores above the threshold against itself.
- Raising the threshold can lower the number of groups (`ThresholdNotMonotone`).
