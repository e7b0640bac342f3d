# Transaction CSV aggregation, modelled in Dafny

The Android app reads a bank-statement CSV file and shows two screens built from it.

- The KPI screen (`KpiActivity`) does the following:
  - It reads every row and keeps the spending transactions. A row is kept when it has `Sender`, `Date` and `Amount` cells, its trimmed `Label` is not `personal-income` or `non-payment` in any letter case, its amount parses as a number, and its trimmed date parses as `dd-MM-yyyy HH:mm`.
  - It fails with "No valid rows found" when nothing is kept.
  - It totals the spend per month and per category. A blank label counts as `Unknown`.
  - It reports the highest and lowest month and the top category. On a tie, the one seen first wins.
  - It builds a month-ordered series, and the line chart shows the last 3, 6 or 12 months of it, or all of it.
- The month-detail screen (`MonthDetailActivity`) does the following:
  - It keeps the same rows restricted to one month. Here the `Sender` cell is not needed.
  - It stores the month total, the totals per label, and the transactions newest first.
  - It ranks the labels by total for the colour index, and the pie chart shows only the labels with a positive total.

Both screens use the same small CSV reader:
- Quoted fields may contain commas.
- `""` inside quotes is a literal quote.
- Blank lines are skipped.
- Missing cells read as empty.
- A repeated header keeps its last cell.

The model has these modules:
- `Text`: whitespace, trimming, ASCII lower-casing, and zero-padded numerals.
- `Csv`: the line tokenizer and the row reader. It has a functional version and the imperative `*ForDetails` methods, which are proved equal to it.
- `Fields`: header names, the label, and the spend-only rule.
- `Amounts`: the decimal number parser.
- `Cents`/`CentsRoundTrip`: two-decimal amount text, and the proof that it parses back exactly.
- `Calendar`: dates, months, and their order.
- `Lists`: `mapNotNull`.
- `Sorting`: stable `sortedBy`.
- `Grouping`: ordered `groupBy`/`sumOf`, `maxByOrNull` and `minByOrNull`.
- `Kpi`: the KPI computation and the chart window.
- `MonthDetail`: the detail screen.
- `Screens`: how the two screens agree. The detail filter does not need a `Sender` cell, but whenever the KPI screen has a result every row has one. So the detail total of a month equals the total that the KPI chart plots for it.

Kotlin's `LinkedHashMap` results are modelled as sequences of key–value pairs with distinct keys, in order of first occurrence. Amounts are exact `real`s. File reading is a parameter: the operations take the file's lines.

## Model

| member | source | states |
|---|---|---|
| Csv.ParseLine | app/src/main/java/com/example/firstapplication/KpiActivity.kt:329-357 | a line yields one field more than it has commas outside quotes, so never zero fields |
| Csv.ScanFieldCount | app/src/main/java/com/example/firstapplication/KpiActivity.kt:335-356 | the tokenizer loop emits one field per unquoted comma plus the final one, whatever state it starts in |
| Csv.ParseEncodedLine | app/src/main/java/com/example/firstapplication/KpiActivity.kt:329-357 | fields written quoted, with inner quotes doubled and joined by commas, parse back to exactly those fields (escaped quotes and quoted commas round-trip) |
| Csv.ScanEncoded | app/src/main/java/com/example/firstapplication/KpiActivity.kt:335-356 | scanning a sequence of quoted fields appends exactly those fields to what was already collected |
| Csv.ScanEscaped | app/src/main/java/com/example/firstapplication/KpiActivity.kt:338-345 | inside quotes a doubled quote appends one quote, and the closing quote ends quoting without adding a character |
| Csv.QuotedCommaIsOneField | app/src/main/java/com/example/firstapplication/KpiActivity.kt:346-349 | a comma between quotes does not split the field |
| Csv.ParseLinePlain | app/src/main/java/com/example/firstapplication/KpiActivity.kt:329-357 | a line with no quote splits at every comma, and joining the fields with commas gives the line back |
| Csv.ParseLineQuoteBound | app/src/main/java/com/example/firstapplication/KpiActivity.kt:338-345 | the fields hold at most half as many quote characters as the line, since a quote is kept only by collapsing a doubled one |
| Csv.ParseLineDropsLoneQuotes | app/src/main/java/com/example/firstapplication/KpiActivity.kt:338-345 | a line with no two adjacent quotes yields fields with no quote at all |
| Csv.BuildRow | app/src/main/java/com/example/firstapplication/KpiActivity.kt:317-322 | the row map has exactly the header names as keys |
| Csv.BuildRowCells | app/src/main/java/com/example/firstapplication/KpiActivity.kt:317-322 | each header name maps to the cell at its last position, or to "" when the line is short |
| Csv.BuildRowIgnoresExtraColumns | app/src/main/java/com/example/firstapplication/KpiActivity.kt:317-322 | cells beyond the last header are ignored |
| Csv.NonBlankLines | app/src/main/java/com/example/firstapplication/KpiActivity.kt:315 | no kept body line is blank |
| Csv.NonBlankLinesMembers | app/src/main/java/com/example/firstapplication/KpiActivity.kt:314-315 | a line is kept exactly when it is a body line that is not blank |
| Csv.NonBlankLinesConcat | app/src/main/java/com/example/firstapplication/KpiActivity.kt:314-315 | lines are judged one at a time, so the kept lines of two stretches of the file are the kept lines of each, in file order |
| Csv.NonBlankLinesKeepsAll | app/src/main/java/com/example/firstapplication/KpiActivity.kt:314-315 | when no body line is blank every line is kept, in order |
| Csv.DataRowsPerLine | app/src/main/java/com/example/firstapplication/KpiActivity.kt:314-324 | there is one row per non-blank body line, in order, built from that line under the header line |
| Csv.ReadCsv | app/src/main/java/com/example/firstapplication/KpiActivity.kt:305-327 | no lines, or a header line alone, give no rows; otherwise row k is the k-th non-blank body line under the parsed header, and every row has exactly the header keys |
| Csv.ReadCsvAppend | app/src/main/java/com/example/firstapplication/KpiActivity.kt:314-324 | one more line adds nothing when it is blank, and otherwise adds exactly its own row at the end |
| Csv.ParseLineForDetails | app/src/main/java/com/example/firstapplication/MonthDetailActivity.kt:411-438 | the detail screen's tokenizer loop computes the same fields as the KPI screen's |
| Csv.BuildRowForDetails | app/src/main/java/com/example/firstapplication/MonthDetailActivity.kt:399-404 | the header-indexed loop builds the same row map |
| Csv.DataRowsForDetails | app/src/main/java/com/example/firstapplication/MonthDetailActivity.kt:396-406 | the body loop yields the same rows |
| Csv.ReadCsvForDetails | app/src/main/java/com/example/firstapplication/MonthDetailActivity.kt:387-409 | the detail screen's reader returns exactly the KPI screen's rows |
| Text.Trim | app/src/main/java/com/example/firstapplication/KpiActivity.kt:243 | the trimmed text is a slice of the input with no whitespace at either end, everything cut off before and after it is whitespace, and it is empty exactly when the input is blank |
| Fields.LabelOf | app/src/main/java/com/example/firstapplication/KpiActivity.kt:242-243 | the label is the trimmed `Label` cell when the row has one, and `Unknown` when it has none; either way it has no surrounding whitespace |
| Fields.ExcludedSpellings | app/src/main/java/com/example/firstapplication/KpiActivity.kt:246-249 | a label is excluded exactly when it is `personal-income` or `non-payment` with any of its letters written in upper case |
| Fields.LowerMatches | app/src/main/java/com/example/firstapplication/KpiActivity.kt:246 | lower-casing a text gives a given lower-case text exactly when the two agree up to the case of ASCII letters |
| Fields.OrUnknown | app/src/main/java/com/example/firstapplication/KpiActivity.kt:277 | the group name is never blank; a non-blank label is kept and a blank one becomes `Unknown` |
| Amounts.StripLow | app/src/main/java/com/example/firstapplication/KpiActivity.kt:251 | the text read is a slice of the cell that neither starts nor ends with a control or space character, and everything skipped before and after it is such a character |
| Amounts.ParsePlainDecimal | app/src/main/java/com/example/firstapplication/KpiActivity.kt:251 | `digits.digits` parses to its exact decimal value |
| Amounts.ParseNegativeDecimal | app/src/main/java/com/example/firstapplication/KpiActivity.kt:251 | `-digits.digits` parses to the negated value |
| Amounts.ParseNegated | app/src/main/java/com/example/firstapplication/KpiActivity.kt:251 | a leading minus negates the parsed value and fails exactly when the unsigned text fails |
| Amounts.ParseUnsignedWithDot | app/src/main/java/com/example/firstapplication/KpiActivity.kt:251 | an unsigned number with a fraction parses to whole part plus scaled fraction |
| Amounts.ParsedAmountShape | app/src/main/java/com/example/firstapplication/KpiActivity.kt:251 | an accepted amount holds, inside the skipped low characters, only digits, points, signs and type suffixes, and at least one digit; so thousands separators, currency words and empty cells are rejected |
| Amounts.UnsignedChars | app/src/main/java/com/example/firstapplication/KpiActivity.kt:251 | an unsigned number is digits with at most one point and at least one digit |
| CentsRoundTrip.ParseFormattedCents | app/src/main/java/com/example/firstapplication/KpiActivity.kt:251 | any amount written with two decimals, signed or not, is read back by the amount parser as exactly that amount |
| CentsRoundTrip.ParseCentsText | app/src/main/java/com/example/firstapplication/KpiActivity.kt:251 | `units.cc` parses to m/100, and `-units.cc` to -(m/100) |
| Calendar.ParseDateTime | app/src/main/java/com/example/firstapplication/KpiActivity.kt:252-253 | a parsed date is a real calendar date-time, read from a 16-character text with `-`, `-`, space and `:` at the pattern's positions |
| Calendar.ParseFormattedDateTime | app/src/main/java/com/example/firstapplication/KpiActivity.kt:235 | every valid date-time written as `dd-MM-yyyy HH:mm` parses back to itself |
| Calendar.FormatParsedDateTime | app/src/main/java/com/example/firstapplication/KpiActivity.kt:252-253 | every text the parser accepts is the canonical spelling of its date-time: no other form is accepted |
| Calendar.MonthIndexOrder | app/src/main/java/com/example/firstapplication/KpiActivity.kt:272 | the month sort key orders months as `YearMonth` comparison does, and distinct months get distinct keys |
| Calendar.ChronoKeyOrder | app/src/main/java/com/example/firstapplication/MonthDetailActivity.kt:130 | the date-time sort key orders date-times as `LocalDateTime` comparison does, and distinct ones get distinct keys |
| Lists.FilterMapSources | app/src/main/java/com/example/firstapplication/KpiActivity.kt:237-256 | every kept item is the image of some input item |
| Lists.FilterMapKeeps | app/src/main/java/com/example/firstapplication/KpiActivity.kt:237-256 | every input item that maps to a value contributes it |
| Lists.FilterMapEmpty | app/src/main/java/com/example/firstapplication/KpiActivity.kt:258 | the result is empty exactly when every item maps to nothing |
| Lists.FilterMapConcat | app/src/main/java/com/example/firstapplication/KpiActivity.kt:237-256 | the filter distributes over concatenation |
| Sorting.SortByCorrect | app/src/main/java/com/example/firstapplication/KpiActivity.kt:270-273 | the sort result is ordered by the key and is a permutation of the input |
| Sorting.SortByPermutes | app/src/main/java/com/example/firstapplication/KpiActivity.kt:270-273 | the sort result is ordered and has the same multiset of elements |
| Sorting.SortByStable | app/src/main/java/com/example/firstapplication/MonthDetailActivity.kt:130 | elements with equal keys keep their input order |
| Sorting.SortBySorted | app/src/main/java/com/example/firstapplication/KpiActivity.kt:362 | sorting an already ordered sequence changes nothing |
| Sorting.SortByStrict | app/src/main/java/com/example/firstapplication/KpiActivity.kt:270-273 | with distinct keys the result is strictly ordered |
| Sorting.SortBySum | app/src/main/java/com/example/firstapplication/MonthDetailActivity.kt:130 | sorting keeps the sum of amounts |
| Sorting.SortByDistinct | app/src/main/java/com/example/firstapplication/MonthDetailActivity.kt:138-142 | sorting keeps names distinct |
| Grouping.GroupSumsKeys | app/src/main/java/com/example/firstapplication/KpiActivity.kt:261-263 | grouping gives one entry per key that occurs, and no other |
| Grouping.GroupSumsValues | app/src/main/java/com/example/firstapplication/KpiActivity.kt:261-263 | each group's value is the sum of the amounts with that key |
| Grouping.GroupSumsOrder | app/src/main/java/com/example/firstapplication/KpiActivity.kt:261-263 | groups come in order of their key's first occurrence |
| Grouping.GroupSumsTotal | app/src/main/java/com/example/firstapplication/KpiActivity.kt:261-263 | grouping keeps the grand total |
| Grouping.MaxIndex | app/src/main/java/com/example/firstapplication/KpiActivity.kt:265-266 | none exactly for an empty map; otherwise an entry no smaller than any other and strictly larger than every earlier one |
| Grouping.MinIndex | app/src/main/java/com/example/firstapplication/KpiActivity.kt:267-268 | none exactly for an empty map; otherwise an entry no larger than any other and strictly smaller than every earlier one |
| Grouping.FirstMaxUnique | app/src/main/java/com/example/firstapplication/KpiActivity.kt:265-266 | the first maximal entry is the one chosen, so the choice is determined |
| Grouping.FirstMinUnique | app/src/main/java/com/example/firstapplication/KpiActivity.kt:267-268 | the first minimal entry is the one chosen |
| Grouping.AccumulateKeys | app/src/main/java/com/example/firstapplication/KpiActivity.kt:261-263 | adding one amount updates only its key's entry, or appends a new entry at the end |
| Kpi.ToTxn | app/src/main/java/com/example/firstapplication/KpiActivity.kt:237-256 | a row becomes a transaction exactly when it has `Sender`, `Date` and `Amount`, its trimmed label is not excluded, and amount and trimmed date parse; the transaction carries those parsed values |
| Kpi.TxnsFromRows | app/src/main/java/com/example/firstapplication/KpiActivity.kt:237-256 | every transaction comes from a converting row and has a valid date and a non-excluded label; every converting row contributes; none are kept exactly when no row converts |
| Kpi.KpisOfFailure | app/src/main/java/com/example/firstapplication/KpiActivity.kt:258-281 | the computation fails exactly when there are no transactions, and then only with "No valid rows found" |
| Kpi.ComputeKpisFailure | app/src/main/java/com/example/firstapplication/KpiActivity.kt:233-299 | on a file, the failure happens exactly when no row is a spending transaction; the month and category throws cannot happen |
| Kpi.NoDataFails | app/src/main/java/com/example/firstapplication/KpiActivity.kt:308-314 | an empty file, or a header alone, fails with "No valid rows found" |
| Kpi.ComputeKpisShape | app/src/main/java/com/example/firstapplication/KpiActivity.kt:288-298 | on success there are transactions, the series is the sorted month totals, and the reported months and category are real group keys |
| Kpi.Extremes | app/src/main/java/com/example/firstapplication/KpiActivity.kt:265-281 | the max and min month bound every month total, and the top category bounds every category; each reported amount is that key's total spend; on ties the key seen first in the file wins |
| Kpi.ExtremesOf | app/src/main/java/com/example/firstapplication/KpiActivity.kt:265-281 | the same extremes facts, stated over the transactions |
| Kpi.ChosenMax | app/src/main/java/com/example/firstapplication/KpiActivity.kt:265-266 | the chosen group's value is its key's sum, and no group with the same value has a key seen earlier |
| Kpi.ChosenMin | app/src/main/java/com/example/firstapplication/KpiActivity.kt:267-268 | the same for the minimum |
| Kpi.Conservation | app/src/main/java/com/example/firstapplication/KpiActivity.kt:261-278 | the month totals, the category totals and the series each add up to the total spend |
| Kpi.PairsTotal | app/src/main/java/com/example/firstapplication/KpiActivity.kt:261-263 | keying transactions by month or category keeps their total |
| Kpi.MonthTotalsKeys | app/src/main/java/com/example/firstapplication/KpiActivity.kt:261-263 | there is exactly one month total per month that has a transaction, and each is a real month |
| Kpi.HasKeyPairs | app/src/main/java/com/example/firstapplication/KpiActivity.kt:261-263 | a key occurs exactly when some transaction has it |
| Kpi.SeriesPoints | app/src/main/java/com/example/firstapplication/KpiActivity.kt:270-273 | every point of the series is a month with spending, carrying that month's total |
| Kpi.SeriesCovers | app/src/main/java/com/example/firstapplication/KpiActivity.kt:270-273 | every month with spending appears in the series |
| Kpi.SeriesAscending | app/src/main/java/com/example/firstapplication/KpiActivity.kt:270-273 | the series is strictly ascending by month |
| Kpi.SortedMonthEntry | app/src/main/java/com/example/firstapplication/KpiActivity.kt:270-272 | each sorted month entry is a real month with spending and carries its total |
| Kpi.PointsTotal | app/src/main/java/com/example/firstapplication/KpiActivity.kt:273 | turning pairs into points keeps the total |
| Kpi.TakeLast | app/src/main/java/com/example/firstapplication/KpiActivity.kt:369-372 | `takeLast(n)` keeps min(n, size) elements and they are a suffix |
| Kpi.WindowOfSeries | app/src/main/java/com/example/firstapplication/KpiActivity.kt:359-372 | the chart's re-sort leaves the series unchanged; the window keeps the last 3, 6 or 12 months (all for lifetime) as an ascending suffix, and every dropped month precedes every kept one |
| Kpi.WindowOfAscending | app/src/main/java/com/example/firstapplication/KpiActivity.kt:369-372 | on any ascending series the window is an ascending suffix of the timeframe's length |
| Kpi.SeriesSorted | app/src/main/java/com/example/firstapplication/KpiActivity.kt:362 | an ascending series of real months is already ordered by the chart's key |
| Kpi.DroppedLineChangesNothing | app/src/main/java/com/example/firstapplication/KpiActivity.kt:237-256 | appending a blank line, or a row that is not a spending transaction, leaves the result unchanged |
| MonthDetail.ToDetail | app/src/main/java/com/example/firstapplication/MonthDetailActivity.kt:107-123 | a row is kept exactly when it has `Date` and `Amount`, its label is not excluded, amount and date parse, and the date is in the month; a blank label is stored as `Unknown` |
| MonthDetail.KeptFromRows | app/src/main/java/com/example/firstapplication/MonthDetailActivity.kt:107-123 | every kept transaction comes from a converting row, and every converting row is kept |
| MonthDetail.KeptInMonth | app/src/main/java/com/example/firstapplication/MonthDetailActivity.kt:118-122 | every kept transaction is a valid date-time in the chosen month with a non-blank label |
| MonthDetail.DetailIgnoresSender | app/src/main/java/com/example/firstapplication/MonthDetailActivity.kt:108-111 | removing the `Sender` cell from a row does not change what is kept |
| MonthDetail.SenderIsNotRead | app/src/main/java/com/example/firstapplication/MonthDetailActivity.kt:108-111 | removing `Sender` leaves the `Date`, `Amount` and label cells as they were |
| MonthDetail.DetailTotals | app/src/main/java/com/example/firstapplication/MonthDetailActivity.kt:125-130 | the month total is the sum of the kept amounts, and the label totals and the sorted transactions both add up to it |
| MonthDetail.LabelPairsTotal | app/src/main/java/com/example/firstapplication/MonthDetailActivity.kt:126 | keying by label keeps the total |
| MonthDetail.EmptyMonth | app/src/main/java/com/example/firstapplication/MonthDetailActivity.kt:107-130 | a month with no kept row has total 0, no labels and no transactions |
| MonthDetail.DetailLabels | app/src/main/java/com/example/firstapplication/MonthDetailActivity.kt:126 | the label totals have distinct labels, one per label that occurs and no other, each with its label's sum |
| MonthDetail.KeptLabels | app/src/main/java/com/example/firstapplication/MonthDetailActivity.kt:126 | the same, stated over the kept transactions |
| MonthDetail.DetailTxnsOrder | app/src/main/java/com/example/firstapplication/MonthDetailActivity.kt:130 | the stored transactions are a permutation of the kept ones, newest first, with ties in file order |
| MonthDetail.NewestFirstOrder | app/src/main/java/com/example/firstapplication/MonthDetailActivity.kt:130 | no transaction is earlier than one after it |
| MonthDetail.Associate | app/src/main/java/com/example/firstapplication/MonthDetailActivity.kt:143-144 | the index map has exactly the ranked names as keys |
| MonthDetail.AssociateDistinct | app/src/main/java/com/example/firstapplication/MonthDetailActivity.kt:143-144 | with distinct names, each name maps to its own position |
| MonthDetail.RankingFacts | app/src/main/java/com/example/firstapplication/MonthDetailActivity.kt:138-142 | the ranking lists each label exactly once |
| MonthDetail.LabelIndexKeys | app/src/main/java/com/example/firstapplication/MonthDetailActivity.kt:138-145 | a name has an index exactly when it is a label of the month |
| MonthDetail.LabelIndexNumbers | app/src/main/java/com/example/firstapplication/MonthDetailActivity.kt:138-145 | indexes are below the number of labels, and different labels get different indexes |
| MonthDetail.LabelIndexOrder | app/src/main/java/com/example/firstapplication/MonthDetailActivity.kt:138-145 | a label with a larger total gets a smaller index |
| MonthDetail.LabelIndexPair | app/src/main/java/com/example/firstapplication/MonthDetailActivity.kt:138-145 | the larger of two totals is ranked first |
| MonthDetail.PositiveMembers | app/src/main/java/com/example/firstapplication/MonthDetailActivity.kt:231 | the filter keeps exactly the entries with a positive total |
| MonthDetail.PositiveSorted | app/src/main/java/com/example/firstapplication/MonthDetailActivity.kt:229-231 | filtering a largest-first list keeps it largest first |
| MonthDetail.PieEntriesFacts | app/src/main/java/com/example/firstapplication/MonthDetailActivity.kt:228-231 | the pie shows exactly the labels with a positive total, largest first |
| MonthDetail.TxnLabelsIndexed | app/src/main/java/com/example/firstapplication/MonthDetailActivity.kt:457-459 | every listed transaction's label has an index, so the `?: 0` fallback is never used |
| MonthDetail.KeptLabelsIndexed | app/src/main/java/com/example/firstapplication/MonthDetailActivity.kt:457-459 | the same, stated over the kept transactions |
| Screens.KeptSpend | app/src/main/java/com/example/firstapplication/MonthDetailActivity.kt:107-125 | when every row has a `Sender` cell, the detail screen's total for a month is the KPI screen's spend for that month (app/src/main/java/com/example/firstapplication/KpiActivity.kt:237-263) |
| Screens.SuccessHasSenders | app/src/main/java/com/example/firstapplication/KpiActivity.kt:239 | whenever the KPI screen has a result, every row has a `Sender` cell, because rows share the header's keys |
| Screens.DetailMatchesChart | app/src/main/java/com/example/firstapplication/MonthDetailActivity.kt:125 | whenever the KPI screen has a result, the detail total of any month equals that month's KPI spend, and for each chart point it equals the point's total |
| Screens.SpendSnoc | app/src/main/java/com/example/firstapplication/KpiActivity.kt:261-263 | one more transaction adds its amount to its own month's spend only |

## Left out

- File access is left out: `contentResolver.openInputStream`, `readLines`, the null-stream branch (`return emptyList()` at the end of each reader), and the coroutine dispatch. The operations take the file's lines as a parameter.
- The `try`/`catch` that turns an exception into an error string, and the loading flags, are UI state. The failure is modelled as a `KpiError` result.
- Amounts are exact decimals, not `Double`s. Rounding of long decimals is not modelled.
- `Amounts.ParseAmount`: accepts an optional sign, digits with an optional point, and an optional `f`/`F`/`d`/`D` suffix. It rejects the exponent, hexadecimal, `NaN` and `Infinity` forms that `toDoubleOrNull` also accepts.
- `Calendar.ParseDateTime`: parses with a strict resolver, so an impossible day such as `31-04-2026` is rejected. `DateTimeFormatter.ofPattern` uses the smart resolver, which clamps such a day to the month's last day. `24:00` and signed five-digit years are also rejected.
- `Text.Lower`: lower-cases ASCII letters only, which is what `lowercase(Locale.getDefault())` does for the two excluded labels under a non-Turkic default locale (there the only other character that lower-cases to an ASCII letter is the Kelvin sign, to `k`, and neither label contains `k`). Under a Turkish or Azerbaijani default locale the source differs: `I` lower-cases to dotless `ı`, so the source keeps a row labelled `PERSONAL-INCOME` that the model excludes, and `İ` lower-cases to `i`, so the source excludes `PERSONAL-İNCOME`, which the model keeps.
- Strings are sequences of code points, not UTF-16 code units.
- `formatMonth` and `money` are left out. `KpiResult` keeps the month and the amount values rather than their display strings. `Cents.FormatCents` models only the two-decimal amount text, not `String.format` rounding or locale separators.
- The chart geometry, `colorForLabel`, the timeframe drop-down, the composables, and `YearMonth.parse` of the screen's intent extra are UI. Only the window of points the chart plots is modelled.
- The `if (points.isEmpty()) return` in the chart only skips drawing.
- The `headers.isEmpty()` check in both readers can never be true, because the tokenizer always returns at least one field (`Csv.ParseLine`). The model leaves that branch out.
- Kotlin's stable merge sort is modelled as a stable insertion sort. Descending sorts use the negated key. Both give the same result for any input.
- The real `LinkedHashMap` API is not modelled. Maps are modelled as ordered pair sequences, so only their iteration order and contents are captured.
