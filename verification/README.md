# finance-manager statistics core, in Dafny

`finance_manager.py` keeps a household budget in Google Sheets. It has one
spreadsheet per month and one year-summary spreadsheet. Once a year it
reads every month's summary and statistics worksheets, adds them up, and
writes the totals and six "top N" rankings into the year-summary
statistics worksheet. This project models the pure part of that run and
proves what it computes:

- **Sheet discovery** (`find_sheets`, module `Discovery`). A folder listing
  of (title, id) pairs splits into the year-summary id and a title-to-id
  table of month sheets. Python's insertion-ordered `dict` is modelled in
  module `OrderedDict`.
- **Ranking writer** (`update_lists`, modules `Sorting`, `Ranking` and
  `Worksheet`):
  - a stable sort by amount in either direction;
  - the clamp of the requested count to the list length;
  - the cell addresses of rank `i`: value at the anchor's column, row
    `R + 3i`; label three code points to the left;
  - the writes made to the worksheet, which is modelled as a map from
    address to value.
- **Per-month reduction** (the loop of `calculate_statistics`, module
  `Statistics`):
  - the month name is the second space-separated word of the title;
  - the four currency cells are read by cutting at the currency suffix,
    dropping commas and applying `float()` (modules `Text`, `Decimal`,
    `Currency`);
  - saved = earned − spent, with running totals;
  - the four per-month series;
  - the category map, which sums the values of equal descriptions.
- **Write-back**: the three totals, then the six rankings with their fixed
  sizes and directions. The model includes the in-place sort that
  `money_spent` keeps between the second and the fourth ranking.

A month whose amount text `float()` rejects raises `ValueError` in the
source. That ends the run before anything is written. The model returns
that as a `Failure` carrying the offending cell.

Amounts are Dafny `real`s. Cell contents are the strings the worksheets
display. An empty cell reads as `""`, as `get_value` returns it.

## Model

| member | source | states |
|---|---|---|
| Discovery.FindSheets | finance_manager.py:107-116 | The loop builds a month table with distinct keys that never holds the year-summary title. Its lookups are stated by the rows below. |
| Discovery.FindSheetsLookup | finance_manager.py:107-116 | The year-summary id is the id of the last file with the configured title, or `''` if there is none. Any other title maps to the id of its last file, and a title that is not listed is absent. |
| Discovery.SummaryIdLookup | finance_manager.py:111-112 | The year-summary id is the id of the last file with the configured title, or `''` when no file has it. |
| Discovery.MonthLookup | finance_manager.py:113-114 | A title other than the year-summary title maps to the id of the last file with that title, and is absent when no file has it. |
| Discovery.FindSheetsKeys | finance_manager.py:109-114 | The month table's keys are exactly the listed titles other than the year-summary title. The keys are distinct. |
| Discovery.FindSheetsOrder | finance_manager.py:109-114 | The month table iterates its titles in the order of their first appearance in the listing. Later files with the same title replace the id but keep the position. |
| OrderedDict.Put | finance_manager.py:114 | Assigning a key stores the value and leaves every other key's value unchanged. A present key keeps its position; a new key goes last. Keys stay distinct. |
| Sorting.Sort | finance_manager.py:121 | The result is ordered by amount in the requested direction and is a permutation of the input. It is stable: the entries with any one amount appear in input order, also when `reverse=True`. |
| Sorting.SortedUnique | finance_manager.py:121 | Two sequences that are both sorted in one direction and are stable reorderings of each other are equal. The stable sort's result is therefore determined by its specification. |
| Sorting.ResortAscending | finance_manager.py:201-206 | Sorting the spent list descending and then ascending gives the same list as sorting the original ascending. The earlier in-place sort does not change the least-spent ranking, not even among ties. |
| Sorting.SortIdempotent | finance_manager.py:121 | Any list already sorted in the requested direction is left unchanged by the sort, ties included. |
| Ranking.Count | finance_manager.py:124-125 | The number of rows written is the requested count clamped to the list length; a count of zero or less writes none. |
| Ranking.ValueCell | finance_manager.py:129 | The value cell of rank `i` is the anchor's column followed by the canonical decimal numeral of the anchor row plus `3i`. |
| Ranking.LabelCell | finance_manager.py:130-131 | The label cell of rank `i` has the column whose code point is 3 below the anchor's, and the same row as the value cell. |
| Ranking.FirstValueAtAnchor | finance_manager.py:129 | When the anchor's row has no leading zero, rank 0's value cell is the anchor itself. |
| Ranking.CellsDistinct | finance_manager.py:129-131 | Two different (rank, kind) pairs never name the same cell. |
| Ranking.UpdateLists | finance_manager.py:119-133 | The list as the in-place sort leaves it: sorted, a permutation, and stable. The writes are `2·Count` in number. Write `2i` puts entry `i`'s amount at its value cell and write `2i+1` puts its label at its label cell. No error when the count exceeds the length. |
| Ranking.RankWritesDistinct | finance_manager.py:127-133 | The writes of the loop, for any sorted list and count, address pairwise different cells. |
| Ranking.UpdateListsDistinct | finance_manager.py:127-133 | One call never writes the same cell twice. |
| Ranking.UpdateListsSheet | finance_manager.py:127-133 | After the writes, the value and label cells of every written rank hold the sorted entry's amount and label. Every cell the call does not address keeps its old content. |
| Ranking.UpdateListsTop | finance_manager.py:121-133 | With a positive count and a non-empty list, the first write is at the anchor's value cell. Its amount belongs to some input entry and is at least as large as every amount (descending) or at most as small (ascending). |
| Worksheet.ApplyDistinctWrites | finance_manager.py:132-133 | Applying writes with distinct addresses leaves each addressed cell holding its written value and every other cell unchanged. |
| Decimal.NatToString | finance_manager.py:129 | `str(n)` is a canonical numeral (no leading zero) whose value is `n`. |
| Decimal.NatToStringOfCanonical | finance_manager.py:129 | `str(int(s)) == s` for a canonical numeral `s`. |
| Text.Split | finance_manager.py:159 | `s.split(sep)` gives at least one piece. The pieces joined by `sep` give back `s`, and no piece contains `sep`. There is exactly one piece iff `sep` does not occur, and the first piece is the text before the first occurrence. |
| Text.Remove | finance_manager.py:162 | `s.replace(c, '')` holds every character of `s` other than `c`, each as often as in `s`, and no `c`. It is `s` itself iff `c` does not occur in `s`. |
| Text.RemoveConcat | finance_manager.py:162 | Removing a character from `a + b` gives the removal from `a` followed by the removal from `b`, so the kept characters stay in order. |
| Text.Strip | finance_manager.py:161 | The whitespace `float()` ignores: the result is a slice of the text with only whitespace before and after it, and it neither starts nor ends with whitespace. |
| Text.StripPadded | finance_manager.py:161 | Stripping text that is padded only by whitespace, and does not itself start or end with whitespace, gives back the text. |
| Decimal.UngroupGroup | finance_manager.py:162 | Removing commas from a digit string grouped in thousands gives back the digit string. |
| Decimal.ParseFloat | finance_manager.py:161-162 | `float()` succeeds only on text that is non-empty once stripped. A result read from text whose stripped form starts with `-` is at most zero, and any other result is at least zero. What it computes on numerals is stated by the next three rows. |
| Decimal.ParseFixedPoint | finance_manager.py:161-162 | Without sign or padding, digits, a point and digits (`w.f`, at least one digit before the point) read as `w` plus the value of `0.f`. |
| Currency.ParsePaddedFixedPoint | finance_manager.py:161-162 | A fixed-point numeral followed by whitespace reads as its value, since `float()` strips the whitespace. |
| Currency.ParsePaddedWhole | finance_manager.py:161-162 | Digits followed by whitespace read as their integer value. |
| Currency.CleanCurrency | finance_manager.py:161-162 | The cleaned text is the text before the first occurrence of the suffix (all of it when there is none) with every comma removed. It contains no comma. |
| Currency.ParseAmount | finance_manager.py:161-162 | The amount read from a cell is `float()` of the text before the first occurrence of the suffix with its commas removed, or of the whole text without commas when the suffix does not occur. |
| Currency.SuffixFound | finance_manager.py:161 | In a displayed amount the suffix is first found after the decimals and no later than the end of the padding; exactly at the end of the padding when the suffix does not start with whitespace. |
| Currency.CleanDisplayedCut | finance_manager.py:161-162 | Cleaning a displayed amount leaves the plain numeral, the point, the decimals and a whitespace-only part of the padding. |
| Currency.ParseDisplayed | finance_manager.py:161-162 | An amount displayed with grouped thousands, any number of decimals, optional whitespace and the currency suffix reads back as that amount, for every suffix whose first character is not a digit, `,` or `.` (so also `" USD"`). The display has a decimal point followed by any number of digits. |
| Currency.CleanDisplayedWholeCut | finance_manager.py:161-162 | Cleaning a whole-number display (no decimal point) leaves the plain digits and a whitespace-only part of the padding. |
| Currency.ParseDisplayedWhole | finance_manager.py:161-162 | A whole amount displayed without decimals, e.g. `1,234 USD`, reads back as that amount, for every suffix whose first character is not a digit, `,` or `.`. |
| Currency.ParseDisplayedCents | finance_manager.py:161-162 | In the two-decimal currency format, `whole` units and `cents` hundredths read back as `whole + cents/100`. |
| Currency.CleanDisplayed | finance_manager.py:161-162 | When the suffix does not start with whitespace, cutting a displayed amount at its suffix and removing the commas leaves exactly the plain numeral, the point, the decimals and the whole padding. |
| Statistics.MonthLabel | finance_manager.py:159 | `title.split(' ')[1]` contains no space. It is the text after the first space, up to the next space or the end. |
| Statistics.ReadAmount | finance_manager.py:161-178 | A cell read succeeds iff `float()` accepts its cleaned text, and then yields that number. Otherwise it fails with an error naming the cell's address and its text. |
| Statistics.ReadDisplayed | finance_manager.py:161-178 | A cell that displays an amount in the sheet's number format, with a decimal point followed by any number of digits and any suffix not starting with a digit, `,` or `.`, reads as that amount. |
| Statistics.ReadDisplayedWhole | finance_manager.py:161-178 | A cell that displays a whole amount without decimals, e.g. `1,234 USD`, reads as that amount. |
| Statistics.EmptyCellRefused | finance_manager.py:161-178 | An empty amount cell makes `float('')` fail; the read fails with that cell's error. |
| Statistics.MonthRecordOf | finance_manager.py:157-180 | A month yields a record iff all four of its amounts read. The record holds the month name, the income, the expenses, and the item and category (description, value) pairs. Otherwise the error is that of the first amount, in source order, that does not read. |
| Statistics.Merge | finance_manager.py:182-185 | The category gets the sum of its previous value and the new one, or the new value if it was absent. Other categories are unchanged. A new category goes last and an existing one keeps its place. |
| Statistics.Accumulate | finance_manager.py:163-190 | One iteration's new state has one more entry in each series. What the state means is stated by the next four rows. |
| Statistics.AccumulateSeries | finance_manager.py:186-190 | Appending a month keeps each series one entry per month in month order. The new saved entry is income minus expenses. |
| Statistics.AccumulateTotals | finance_manager.py:163-170 | Each running total stays the sum of its series, and total saved stays total earned minus total spent. |
| Statistics.AccumulateCategories | finance_manager.py:182-185 | The category map keeps exactly the reported descriptions, in first-report order. Each maps to the sum of the values of the months that reported it. |
| Statistics.AccumulateSummarises | finance_manager.py:163-190 | One iteration keeps the loop invariant: one entry per month in each series, in month order, with saved = earned − spent; totals as sums; categories as above. |
| Statistics.Fold | finance_manager.py:151-190 | The loop succeeds iff every month reads. On success its state satisfies the invariant for the records of all months. On failure the error is that of the first month that does not read. |
| Statistics.WriteBack | finance_manager.py:192-210 | The first three writes put the three totals into their cells. The number of writes is 3 plus twice the clamped sizes of the six rankings. |
| Statistics.Rankings | finance_manager.py:199-210 | The six `update_lists` calls write twice the sum of their sizes: each of the four monthly rankings (the spent series twice) clamped to 3, items and categories clamped to 5. |
| Statistics.WriteBackRankings | finance_manager.py:199-210 | The write-back is the totals followed by the six rankings in source order, each on its own series with its own size and direction. In particular, the least-spent ranking is the ascending ranking of the spent series as read, in spite of the earlier in-place descending sort. |
| Statistics.CalculateStatistics | finance_manager.py:136-210 | The run fails iff some month has an amount that does not read, and then it writes nothing and reports the first such month's error. Otherwise its writes are the write-back of a state that satisfies the loop invariant for all months. |
| Statistics.CalculateStatisticsCount | finance_manager.py:192-210 | A successful run over `n` months with `c` distinct categories makes `3 + 2·(4·min(3,n) + min(5,n) + min(5,c))` writes. |

## Left out

- Authentication (service account, pygsheets) and its `exit(400)` paths, finance_manager.py:10-47: foreign-library calls.
- Opening spreadsheets, resolving worksheets and the `exit(404)` path, finance_manager.py:50-90: remote API I/O. The model starts from the month worksheets as maps from address to displayed text.
- YAML loading and the Drive query and listing, finance_manager.py:93-104: file and network I/O. `FindSheets` starts from the listing.
- The debug `print` in `update_lists` and `main`: output and wiring only.
- Floating-point rounding: amounts are exact reals, so sums and differences are exact. Python's float totals can differ in the last bits, and `total_saved == total_earned - total_spent` holds only up to rounding there. Rounding can also reorder near-equal amounts in the rankings: Python ranks a month saving 1.1 − 1.0 = 0.10000000000000009 above one saving 0.1 − 0.0 = 0.1, while in the model both are 0.1, tie, and keep month order.
- Decimal.ParseFloat: models `float()` only on plain decimal text: optional ASCII whitespace, one sign, digits with at most one `.`. Exponents, `inf`/`nan`, underscores between digits, non-ASCII whitespace and non-ASCII decimal digits (`float('١٢٣') == 123.0`), which Python also accepts, read as errors in the model.
- Ranking.ValidAnchor: accepts anchors whose row is plain digits. Python's `int()` would also take surrounding whitespace, a sign, underscores or non-ASCII decimal digits (`int('５') == 5`). The anchor's column must be at least three code points above a valid character: an anchor whose shifted column would fall below zero (a `ValueError` from `chr`) or into the surrogate range is excluded as a precondition.
- Python exceptions other than `float()`'s are preconditions, not behaviour: a month title with no space (`split(' ')[1]`), fewer than three worksheets in a month, an empty currency suffix (`split('')`), and the anchor conditions above. Statistics.ValidParams demands all six anchors valid, although `update_lists` never reads its address when the clamped count is 0 (an empty series, as in a run with no months); Python then accepts any anchor for that ranking.
- Several writes of one run can address the same cell when the configured anchors overlap; the model keeps all writes in order and does not state the final sheet for that case.
- Statistics.Reduce and Statistics.ReadMonth: have no contract of their own. Their results are described through `Fold` and `MonthRecordOf`, to which they apply the reads of the months, and through `CalculateStatistics`.
