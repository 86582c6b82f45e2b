# Productivity dashboard core in Dafny

A model of the analytical core of a single-page dashboard (`app.js`) that
shows productivity and growth indicators for a list of economies. The data
is a table of rows. Each row names an economy and holds numeric indicator
columns. On top of that table the dashboard computes the following:

- summary aggregates (sum, mean, median, minimum and maximum, arg-max and
  arg-min);
- top/bottom-five leaderboards with bar widths;
- a two-economy comparator with ranks, ratio and rank delta;
- a median-split portfolio segmentation into four quadrants;
- growth distributions in bins;
- GDP concentration: top-k shares and the Herfindahl–Hirschman index;
- a slice-and-dice treemap of GDP;
- the searchable, sortable bar chart of the data view;
- the CSV import parser and the CSV export writer;
- the HTML escaping of labels, and how the number of decimals is read from
  an indicator's format;
- the automatic extension of the indicator catalogue with new numeric
  columns.

Modelling conventions:

- Numbers are `real`. A JavaScript value that is not a finite number (a
  missing cell, a string, `NaN`, `Infinity`) is `None` in a
  `map<ColumnId, Option<real>>` cell, so `isNum` is `Cell(r, id).Some?`
  (`Dataset.IsNum`).
- The global `DATA` array is a `seq<Row>` parameter. `forEach`
  accumulations are recursions over prefixes.
- JavaScript's stable `Array.prototype.sort` with a comparator is
  `Ordering.SortBy`, a stable insertion sort. It is proved to return a
  sorted permutation for every total preorder, and to be stable
  (`Ordering.SortByStable`: the elements the comparator ranks equal come
  out in the order they went in).
- `localeCompare` on names is the code-point order `Ordering.StrLe`.

Modules, one per area of the source:

- `Common`: `Option`, sums, minima and maxima, counting.
- `Ordering`: stable sort, string order.
- `Dataset`: rows, cells, `isNum`, `sortedNumeric`.
- `Aggregate`: the summary aggregators, `medianOf` and
  `avgIndicatorExcluding`.
- `Leaderboard`: `leaderboard`, `barWidth` and the comparator.
- `Segmentation`: the segmentation.
- `Binning`: `binCounts` and the growth bins.
- `Concentration`: top-k shares, HHI and the sensitivity line.
- `Treemap`: `splitTreemap` and the GDP modal.
- `Text`: trim, lower-case, `includes`, `escapeHtml`, `decimalsFromFmt`.
- `Indicators`: `autoExtendIndicatorsFromData`.
- `IndicatorView`: `sortedRows`, `pickVal` and the bar geometry of
  `renderBars`.
- `Csv`: `parseCSV` and the export writer.

## Model

| member | source | states |
|---|---|---|
| Dataset.Values | app.js:181-185 | the finite numbers of a column; empty exactly when no row has a finite number there |
| Dataset.Numeric | app.js:247-251 | `sortedNumeric`: the named rows with a finite value, at most one per row; empty exactly when no row is both named and numeric |
| Dataset.NumericMembers | app.js:247-251 | every entry comes from a named numeric row of the data, and every such row gives an entry |
| Dataset.NumericRow | app.js:247-251 | one row gives the entry (name, value) exactly when it is named and numeric, and nothing otherwise |
| Dataset.NumericAppend | app.js:247-251 | the map-then-filter distributes over concatenation, so the entries keep dataset order |
| Dataset.HasNumeric | app.js:252-254 | `hasNumeric` (the same scan as `anyNum` at app.js:101): true exactly when some row holds a finite number in the column |
| Aggregate.SumIndicator | app.js:163-170 | the sum is 0 when no cell is numeric, and non-negative when every numeric cell is |
| Aggregate.SumIndicatorSplit | app.js:163-170 | the sum over a concatenation is the sum of the sums; a row without a number adds nothing |
| Aggregate.SumIndicatorRow | app.js:163-170 | one row adds its cell exactly when the cell is a finite number, and nothing otherwise |
| Aggregate.AvgIndicator | app.js:171-178 | null exactly when no cell is numeric; otherwise the mean times the count of numeric cells is `sumIndicator`, and the mean lies between the column's minimum and maximum |
| Aggregate.MedianOf | app.js:387-393 | null exactly on an empty list; otherwise the median lies between the minimum and maximum, and for an odd count it is one of the values |
| Aggregate.MedianIsMiddle | app.js:387-393 | at least half of the values are at most the median and at least half are at least it |
| Aggregate.MedianValue | app.js:387-393 | for every ascending arrangement of the values, the median is its middle element for an odd count and the mean of its two middle elements for an even count; null for no values |
| Aggregate.MedianOddExample | app.js:387-393 | the median of 10, 20, 30 is 20 |
| Aggregate.MedianEvenExample | app.js:387-393 | the median of 40, 10, 30, 20 is 25, the mean of the two middle values after sorting |
| Aggregate.MedianIndicator | app.js:180-191 | null exactly when no cell is numeric; otherwise between the column's minimum and maximum, and for an odd count one of the column's values |
| Aggregate.MedianIndicatorValue | app.js:180-191 | for every ascending arrangement of the column's numeric cells, the median is the middle element (odd count) or the mean of the two middle elements (even count) |
| Aggregate.MinMaxIndicator | app.js:193-202 | both ends are null exactly when no cell is numeric; otherwise each is attained by a cell and bounds every cell |
| Aggregate.ArgmaxEconomy | app.js:204-212 | null exactly when no named row is numeric; otherwise the entry of a named numeric row whose value is at least every other and strictly greater than every earlier one |
| Aggregate.ArgminEconomy | app.js:214-222 | the same with at most and strictly smaller |
| Aggregate.ArgmaxFirstWins | app.js:204-212 | on ties the first row holding the maximum wins |
| Aggregate.ArgminFirstWins | app.js:214-222 | on ties the first row holding the minimum wins |
| Aggregate.ValuesExcluding | app.js:626-630 | the numeric values of rows not named `excludeName`; empty exactly when every numeric row carries that name |
| Aggregate.ValuesExcludingRow | app.js:626-630 | one row contributes its value exactly when it is numeric and not the excluded economy |
| Aggregate.ValuesExcludingAppend | app.js:626-630 | the filter distributes over concatenation, so the remaining values keep dataset order |
| Aggregate.AvgIndicatorExcluding | app.js:626-630 | null exactly when every numeric row is the excluded economy; equal to the plain mean when no row has that name; otherwise the mean times the number of remaining values is their sum, and it lies between the remaining minimum and maximum |
| Leaderboard.Leaderboard | app.js:293-302 | `n` counts the named numeric rows; nothing but `n` = 0 when there are none; otherwise top and bottom hold min(5, n) entries, top non-increasing and bottom non-decreasing |
| Leaderboard.LeaderboardTop | app.js:293-302 | the top list is a sub-multiset of the entries and no entry left out is larger than its last |
| Leaderboard.LeaderboardBottom | app.js:293-302 | the bottom list is a sub-multiset of the entries and no entry left out is smaller than its last |
| Leaderboard.WithValuePrefix | app.js:302 | cutting a list to a prefix keeps, for each value, a prefix of the entries holding it |
| Leaderboard.LeaderboardTies | app.js:299-302 | for every value, the top and bottom lists hold a prefix of the eligible entries of that value in dataset order, so ties at the cut-off are settled by dataset order |
| Leaderboard.LeaderboardBounds | app.js:293-302 | min and max are the heads of bottom and top and bound every entry |
| Leaderboard.SortDescStable | app.js:299 | the descending sort is stable: for every value, the entries holding it keep their input order |
| Leaderboard.SortAscStable | app.js:300 | the ascending sort is stable: for every value, the entries holding it keep their input order |
| Leaderboard.SortDesc | app.js:299 | the result is a permutation of the entries in non-increasing value order |
| Leaderboard.SortAsc | app.js:300 | the result is a permutation of the entries in non-decreasing value order |
| Leaderboard.BarWidth | app.js:303-308 | the width is within [12, 100]; it is 100 when a value is missing or min = max; otherwise it is the percentage 12 + (v - min) / (max - min) * 88 rounded half up (within 0.5 of it), clamped to [12, 100] |
| Leaderboard.BarWidthMidpoint | app.js:303-308 | the value half-way between min and max gets width 56 |
| Leaderboard.BarWidthMonotone | app.js:303-308 | widths are monotone in the value; the maximum gets 100 and the minimum gets 12 |
| Leaderboard.Ranked | app.js:1060 | the ranking is a permutation of the named numeric entries in non-increasing order |
| Leaderboard.RankedStable | app.js:1060 | economies tied on a value appear in the ranking, and so take ranks, in dataset order |
| Leaderboard.FindRow | app.js:1053-1054 | `DATA.find`: absent exactly when no row has the name; otherwise the first row with that name |
| Leaderboard.ValueOf | app.js:1053-1057 | absent when no row has the name; otherwise exactly the cell of the first row with that name, which is absent when that cell is not a finite number |
| Leaderboard.RankOf | app.js:1061-1064 | absent exactly when no entry has the name; otherwise the 1-based position of the last entry with that name (the `Map` keeps the last write) |
| Leaderboard.Compare | app.js:1043-1093 | values and ranks of both economies; the ratio is defined exactly when both values are defined and the divisor is non-zero, and it is then their quotient; the difference adds back; the rank delta is defined exactly when both ranks are, and it is positive exactly when A ranks above B, with rank A + delta = rank B |
| Leaderboard.RankPresence | app.js:1060-1064 | an economy has a rank exactly when it is a named numeric row |
| Leaderboard.RanksFollowValues | app.js:1060-1064 | a strictly larger value means a better rank, and rank 1 holds the largest value |
| Segmentation.WithData | app.js:397-406 | the candidates kept are exactly those with some numeric cell, and the first kept is the first candidate in menu order with data |
| Segmentation.WithDataAppend | app.js:397-406 | the filter distributes over concatenation, so the kept candidates stay in menu order |
| Segmentation.FirstWithDataLater | app.js:397-406 | a candidate without data ahead of the first candidate with data does not change which one is first |
| Segmentation.SegIndicator | app.js:408-410 | the current y-indicator is kept when it is one of the candidates and has data; otherwise it is the first candidate in menu order with data; the result has data whenever some candidate has |
| Segmentation.SegPoints | app.js:414-416 | the points are the rows named and numeric in both columns; empty exactly when there are none |
| Segmentation.SegPointsMembers | app.js:414-416 | every point comes from a qualifying row and every qualifying row gives a point |
| Segmentation.Classify | app.js:429-434 | high on x exactly when x is at least the x-median, high on y exactly when y is at least the y-median |
| Segmentation.Segment | app.js:414-438 | no qualifying rows give four empty buckets; every bucket is sorted by name |
| Segmentation.SegmentPartition | app.js:427-437 | the four buckets together hold every point's name exactly once |
| Segmentation.SegmentPlacement | app.js:427-437 | each name is in the bucket of its quadrant, and each bucket entry is a point of that quadrant |
| Segmentation.SegmentHighHalf | app.js:427-437 | at least half of the economies are high on x and at least half are high on y |
| Binning.FirstMatch | app.js:719-721 | the first bin whose test accepts the value, or none when no test does |
| Binning.FindBin | app.js:719-721 | the loop over the bins stops at the same bin as the first-match definition, and finds none exactly when no test accepts |
| Binning.TallySum | app.js:714-724 | the counts add up to the number of values some bin accepts, at most all of them |
| Binning.BinCounts | app.js:714-724 | `n` counts the named numeric rows; one count per bin, each the number of values whose first accepting bin it is; the counts sum to at most `n` |
| Binning.GrowthBinsPartition | app.js:725-731 | every value falls into exactly the bin of its interval |
| Binning.GrowthDistribution | app.js:725-732 | with the growth bins the counts sum to exactly `n` |
| Concentration.GdpRows | app.js:375 | the GDP entries as a permutation of `sortedNumeric`, in non-increasing order |
| Concentration.TopShare | app.js:634-636 | defined exactly when there are rows and a non-zero total (as also at app.js:377); then the quotient of the first k entries' total by the whole total |
| Concentration.Top5Share | app.js:377 | the same for the first five GDP entries |
| Concentration.Hhi | app.js:637-638 | defined exactly when there are rows and a non-zero total; then at least 1/n |
| Concentration.SharesSumToOne | app.js:637 | the shares of positive entries sum to one |
| Concentration.HhiAtMostOne | app.js:638 | for non-negative GDP the index lies in (0, 1] |
| Concentration.SharesAtLeastEqual | app.js:638 | shares summing to one have a sum of squares of at least 1/n (Cauchy–Schwarz) |
| Concentration.HhiEqualShares | app.js:638 | n equal economies give exactly 1/n |
| Concentration.HhiOnlyEqualShares | app.js:638 | conversely, an index of exactly 1/n forces every economy to hold the same GDP |
| Concentration.HhiEqualIff | app.js:638 | for positive GDPs the index is 1/n exactly when all GDPs are equal |
| Concentration.HhiFourEqual | app.js:638 | four equal economies give 0.25, the worked example of the card |
| Concentration.HhiThreeEconomies | app.js:633-638 | GDPs 60, 30 and 10 give shares 0.6, 0.3, 0.1, an index of 0.46 and a top-1 share of 0.6 |
| Concentration.TopShareMonotone | app.js:634-636 | for non-negative GDP, 0 ≤ top-j share ≤ top-k share ≤ 1 whenever j ≤ k |
| Concentration.ConcentrationRisk | app.js:633-642 | the card is present exactly when GDP rows exist with a non-zero total; it then holds the top-3/5/10 shares, the HHI, the mean labour productivity, and that mean without the largest economy (absent when there is no largest economy) |
| Concentration.RiskShares | app.js:633-638 | 0 ≤ top3 ≤ top5 ≤ top10 ≤ 1 and 0 < HHI ≤ 1 |
| Concentration.LpSensitivity | app.js:640-642 | the mean productivity, and the mean without the largest economy exactly when there is a largest economy |
| Treemap.GreedyFits | app.js:1583-1591 | the greedy prefix stays within half the total, and one more item would exceed it |
| Treemap.SplitIndex | app.js:1583-1594 | the cut index leaves both groups non-empty |
| Treemap.SplitBalanced | app.js:1583-1594 | unless forced to 1, the first group weighs at most half; unless forced to n−1, adding the next item passes half |
| Treemap.Cut | app.js:1599-1616 | both parts lie inside the box, share its cross side and abut exactly along the cut direction |
| Treemap.SplitTreemap | app.js:1577-1617 | one rectangle per item |
| Treemap.TreemapItems | app.js:1577-1617 | rectangle i carries item i's name and value |
| Treemap.TreemapWithin | app.js:1577-1617 | every rectangle lies inside the container |
| Treemap.TreemapAreaSum | app.js:1577-1617 | the areas sum to the container's area |
| Treemap.TreemapDisjoint | app.js:1577-1617 | no two rectangles overlap |
| Treemap.TreemapProportional | app.js:1577-1617 | each rectangle's area is its item's share of the total weight times the container's area |
| Treemap.GdpTreemap | app.js:1631-1642 | one rectangle per GDP entry, and none when there is none |
| Treemap.GdpTreemapLayout | app.js:1631-1642 | the rectangles follow the GDP entries in non-increasing order, inside the unit square, pairwise disjoint |
| Treemap.GdpTreemapAreas | app.js:1631-1642 | each area is the economy's share of total GDP, and the areas sum to one |
| Treemap.SplitStepAgrees | app.js:1583-1597 | on two or more items the step as written cuts where the model cuts |
| Treemap.EmptySplitNoProgress | app.js:1577-1597 | on no items the step as written recurses on two empty lists |
| Text.Trim | app.js:1164 | the trimmed text is a slice of the input with only white space cut off either side; it is empty exactly when the input is all white space; otherwise it neither starts nor ends with white space, and text without surrounding space is unchanged |
| Text.TrimIdempotent | app.js:1164 | trimming twice is trimming once |
| Text.Lower | app.js:1164-1166 | the text lower-cased character by character |
| Text.LowerIdempotent | app.js:1164-1166 | lower-casing is idempotent and leaves no upper-case letter |
| Text.Includes | app.js:1166 | true exactly when the query occurs at some position |
| Text.EscapeHtml | app.js:1456-1460 | a non-string becomes the en dash; the output never contains `<` or `>` |
| Text.ReplaceChainPerChar | app.js:1459 | the three global replacements, applied in order, escape each character independently |
| Text.EscapeHtmlRoundTrip | app.js:1456-1460 | decoding the three entities restores the original string |
| Text.DecimalsFromFmt | app.js:242-246 | a non-string gives 1; otherwise 0 exactly when the format has no `.0`, and d > 0 is the length of the zero run after the first `.0` |
| Indicators.Extra | app.js:97-104 | the extra definitions are exactly the discovered definitions of the wanted columns |
| Indicators.ExtraOne | app.js:99-104 | one column yields its discovered definition when it is not `Economy`, not known and numeric somewhere, and nothing otherwise |
| Indicators.ExtraAppend | app.js:98-104 | the extra list of two runs of columns is the first run's followed by the second's, so definitions follow column order |
| Indicators.AutoExtend | app.js:93-109 | empty data changes nothing; otherwise the result is the catalogue followed by the extra list of the first row's columns; the catalogue is kept as a prefix; every added definition is a new column of the first row, not `Economy`, numeric somewhere, with caption = id, no unit and format `0.0`; every such column ends up in the catalogue |
| Indicators.AutoExtendIdempotent | app.js:93-109 | a second extension adds nothing |
| IndicatorView.PickVal | app.js:1173-1180 | the data value, the projection value, or in the mixed mode the data value falling back to the projection |
| IndicatorView.PickValSource | app.js:1173-1180 | a picked value is the cell of the indicator or of its projection |
| IndicatorView.Query | app.js:1164 | the normalised query is the lower-cased trim of the search text, and it does not start with white space |
| IndicatorView.MatchingRows | app.js:1166 | exactly the rows whose lower-cased name includes the query |
| IndicatorView.MatchingRowsOne | app.js:1166 | a single row is kept exactly when its lower-cased name includes the query |
| IndicatorView.MatchingRowsAppend | app.js:1166 | matching distributes over concatenation, so the matches keep dataset order |
| IndicatorView.MatchingRowsCount | app.js:1166 | a matching row occurs as often as in the dataset, a non-matching one not at all |
| IndicatorView.Filter | app.js:1164-1167 | all rows for an empty query, otherwise exactly the matching ones |
| IndicatorView.FilterCountAndOrder | app.js:1164-1167 | the filtered list keeps each row as often as the dataset when the query is empty or the row matches, drops it otherwise, and keeps dataset order across any split |
| IndicatorView.RowLeTotalPreorder | app.js:1182-1196 | the comparator is a total preorder for every key, so the stable sort is well defined |
| IndicatorView.SortedRows | app.js:1163-1197 | a permutation of the filtered rows; `alpha` sorts by name; otherwise rows without a value come last, ordered by name, and values are non-increasing for `highest` and non-decreasing for `lowest` |
| IndicatorView.SortedRowsMembers | app.js:1163-1197 | an empty query keeps every row; in general a row is listed exactly when it matches |
| IndicatorView.SortedRowsStable | app.js:1163-1197 | the sort is stable: rows the comparator returns 0 for keep the order in which they matched |
| IndicatorView.EqualValuesTie | app.js:1182-1196 | under a value sort, rows with the same value compare equal both ways |
| IndicatorView.Extents | app.js:1218-1230 | both extents are non-negative |
| IndicatorView.ExtentsAreMaxima | app.js:1218-1230 | the extents cover every data and projection value, and each non-zero extent is attained by some value |
| IndicatorView.ZeroPctPlacement | app.js:1232-1234 | the zero line lies in [0, 100]: at 0 without negatives, at 100 with only negatives, and otherwise in proportion to the negative extent |
| IndicatorView.Segment | app.js:1242-1244 | no segment exactly for a missing or zero value |
| IndicatorView.SegmentGeometry | app.js:1246-1262 | a segment lies on the track; a negative one ends at the zero line and a positive one starts there; its width is proportional to the value; the extreme values reach the ends of the track |
| IndicatorView.Bars | app.js:1268-1310 | one list of segments per row, one per track, each the segment of that track's value |
| IndicatorView.RenderBars | app.js:1199-1311 | the rows drawn are the sorted rows, and each row's bar line holds the segments of its tracks on the one scale taken from all listed rows |
| IndicatorView.ZeroPct | app.js:1232-1234 | the zero line's percentage times the sum of the extents is 100 times the negative extent; with both extents zero the divisor falls back to 1 |
| IndicatorView.ListOnTrack | app.js:1218-1311 | every drawn segment lies on its track and touches the common zero line |
| Csv.SomeNonBlankSpec | app.js:1744-1748 | the row test is true exactly when some cell is not blank after trimming |
| Csv.RunKeepsNonBlank | app.js:1746-1767 | the parser only ever appends rows, and each row it appends has a non-blank cell |
| Csv.ParseCsv | app.js:1735-1769 | no row of the result is blank |
| Csv.BlankTextNoRows | app.js:1735-1769 | text made only of white space and commas yields no rows |
| Csv.ExportCsv | app.js:1507-1512 | no rows give empty text, and one row gives its encoded cells joined by commas |
| Csv.ExportLines | app.js:1507-1512 | the export is the first row's encoded cells joined by commas, a line feed, and the export of the remaining rows |
| Csv.JoinFront | app.js:1512 | a join of two or more parts is the first part, the separator, and the join of the rest |
| Csv.EncodeCell | app.js:1509-1511 | a cell without `"`, `,` or a newline is written as is; otherwise it is wrapped in quotes |
| Csv.RunCell | app.js:1750-1766 | the parser reads a cell encoded as at app.js:1509-1511 back as the cell itself |
| Csv.ExportRoundTrip | app.js:1735-1768 | parsing an export (app.js:1507-1512) gives the table back, provided every row has a non-blank cell and every carriage return sits in a quoted cell |

## Left out

- The DOM, event handlers, `localStorage`, file reading, the `Blob` download,
  and admin saving are left out, since they are I/O. The model's functions
  take `DATA`, the indicator catalogue and the UI state as parameters.
- IEEE-754 rounding is not modelled, because numbers are exact reals.
  `Math.round` in `barWidth` is rounding half up on reals.
- `localeCompare` is the code-point order, and `toLowerCase` and `trim`
  work on the ASCII letters and the JavaScript white-space set. Locale
  collation and Unicode case mapping are outside the model.
- `Object.keys(DATA[0])` is the `cols` parameter of `Indicators.AutoExtend`.
  Its enumeration order comes from the JavaScript engine.
- Csv.ExportRoundTrip: cells are exported as given strings. The
  `(x ?? "").toString()` conversion of arbitrary values is not modelled.
- Csv.ExportRoundTrip: the export writes a carriage return in an unquoted
  cell as is. The parser then drops it, so tables with such cells, and
  rows that are entirely blank, are excluded by the precondition rather
  than claimed to round-trip.
- Treemap.SplitTreemap: requires at least one item, each with a positive
  value. The source's behaviour on an empty list is recorded under
  Findings. Zero or negative GDP would give degenerate or negative
  rectangles, which are not modelled.
- `coerceValue`, `handleCsvUpload` and `fmtNumber`/`formatIndicatorValue` are
  not part of this model. They are number formatting and type coercion of
  parsed text, outside the analytical core.
- Leaderboard.Compare: `fmtNumber(aVal/bVal, 2)` is represented by the exact
  quotient. The two-decimal formatting is not modelled.

## Findings

| source | as written | input that shows it | evidently intended | confidence | as-written member | corrected member |
|---|---|---|---|---|---|---|
| app.js:1577-1597, 1631-1642 | `openGdpModal` calls `splitTreemap` without checking for an empty list. On `[]` the greedy index is 0 and is forced to 1; the second guard `idx === items.length` compares 1 with 0, so the index stays 1. Both `slice(0, 1)` and `slice(1)` of `[]` are empty, so the function calls itself on `[]` again and again, never reaching its one-item base case, until the JavaScript call stack overflows with a `RangeError`. | a dataset in which no economy has a finite `GDP_PPP_2023_bn` | no rectangles for no items | not executed | Treemap.EmptySplitNoProgress | Treemap.GdpTreemap |
