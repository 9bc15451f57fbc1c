# ledger-manager, modelled in Dafny

ledger-manager wraps the `ledger` command-line accounting tool. It builds `ledger` command
lines from report options and account patterns. It also keeps a price database up to date with
exchange rates fetched from a web API. The database is a text file of `P` directives, one per line:
`P 2001/01/01 00:00:00 RUB 30.05 $`.

This project models the core of that system:

- the value types and their text form: report floors and aggregations, the exchange-rate
  record, its one-line database encoding and the regular expression that reads it back
  (`models.dfy`);
- the price database: reading, first and last record, appending sorted rows (`pricedb.dfy`);
- the exchange-rates client: the request, the validation of the `rates` map, and the
  records yielded per date and currency (`rates.dfy`);
- the `ledger` command builder and runner (`ledger.dfy`);
- the use cases: the report defaults (`report_defaults.dfy`), and the planning, year
  splitting and syncing of missing price intervals (`use_cases.dfy`).

Supporting modules:

- `calendar.dfy`: calendar arithmetic with `arrow`'s shift and floor rules;
- `chunking.dfy`: generic cutting of a range into consecutive chunks;
- `text.dfy`: runs, strip, split and join, digits;
- `sequences.dfy`: stable sort, concatenation, all-or-first-error mapping;
- `ordered_map.dfy`: insertion-ordered dictionaries as sequences of pairs;
- `wrappers.dfy`: `Option` and `Result`.

The outside world becomes parameters:

- the `ledger` subprocess is a function from a command line to its stdout and stderr;
- the HTTP exchange is a function from a request to a response;
- the wall clock is a `clock` argument;
- whether the price file exists, and its text, are the fields of `PriceStore.PriceDb`;
- the regular-expression test of `_search_accounts` is a predicate parameter.

Error handling follows the code, which wraps only some failures:

- `get_rates` turns only an HTTP error status into `ExchangeRatesAPIException`. A body that is
  not a time series, or a `rates` key that is not a date, raises the validation error itself.
  The model keeps these as the separate errors `InvalidBody` and `InvalidRateDate`.
- A stored row can fail to read in three ways, not one: it does not match the row pattern
  (`NoMatch`); its date is impossible (`BadDate`); or its price uses a comma, which the
  pattern accepts but the float conversion refuses (`BadPrice`).

## Model

| member | source | states |
|---|---|---|
| Calendar.NextDay | ledger_manager/api/use_cases.py:18 | the next calendar date is valid and later, in the same or the next year |
| Calendar.NextDayIsSuccessor | ledger_manager/api/use_cases.py:18 | no valid date lies strictly between a date and its next day |
| Calendar.PrevDay | ledger_manager/api/use_cases.py:132 | the previous calendar date is valid and earlier, in the same or the previous year |
| Calendar.PrevDayIsPredecessor | ledger_manager/api/use_cases.py:132 | no valid date lies strictly between a date's previous day and the date |
| Calendar.PrevNextInverse | ledger_manager/api/use_cases.py:132-135 | the previous and next day are inverse to each other |
| Calendar.ShiftDays | ledger_manager/api/use_cases.py:132-135 | `shift(days=n)` gives a valid datetime with the same time of day, later for n > 0 and earlier for n < 0 |
| Calendar.ShiftOneDay | ledger_manager/api/use_cases.py:132-135 | shifting by one day either way moves the date to the next or the previous day and keeps the clock |
| Calendar.ShiftYears | ledger_manager/api/use_cases.py:149-151 | `shift(years=n)` keeps the month, the day and the clock; 29 February becomes 28 February in a common year |
| Calendar.YearSpanEnd | ledger_manager/api/use_cases.py:149-150 | `shift(years=1, days=-1)` is the day before the same date a year later, at the same time of day |
| Calendar.YearSpanEndShifts | ledger_manager/api/use_cases.py:149-151 | the span end is the one-year shift moved back a day, and the next chunk's start is the span end moved forward a day |
| Calendar.YearSpanEndFacts | ledger_manager/api/use_cases.py:149-151 | the span end is after its start, in the same or the next year, and the next start is its next day |
| Calendar.KeyInjective | ledger_manager/api/use_cases.py:131 | two valid datetimes with the same order key are equal, so comparing keys is comparing datetimes |
| Calendar.StartOfDay | ledger_manager/api/use_cases.py:127 | `floor("days")` is midnight of the same date, not after the input |
| Calendar.StartOfWeek | ledger_manager/api/use_cases.py:49 | `floor("week")` is a midnight not after the input that falls on a Monday, exactly as many days before the input's date as the input's weekday number |
| Calendar.DayNumberNext | ledger_manager/api/use_cases.py:49 | the day count behind the weekday grows by exactly one from each date to the next, across month, February and year ends |
| Calendar.WeekdayAnchor | ledger_manager/api/use_cases.py:49 | the weekday numbering is Python's: 1 January 2024, a Monday, is day 0 |
| Calendar.WeekdayNext | ledger_manager/api/use_cases.py:49 | the weekday advances by one, modulo seven, from each day to the next |
| Calendar.WeekdayPrev | ledger_manager/api/use_cases.py:49 | the weekday goes back by one, modulo seven, from each day to the one before |
| Calendar.WeekdayShiftBack | ledger_manager/api/use_cases.py:49 | shifting back `n` days lowers the weekday by `n`, modulo seven |
| Calendar.StartOfMonth | ledger_manager/api/use_cases.py:49 | `floor("month")` is midnight of the first of the month |
| Calendar.StartOfQuarter | ledger_manager/api/use_cases.py:49 | `floor("quarter")` is midnight of the first day of the quarter that holds the input's month |
| Calendar.StartOfYear | ledger_manager/api/use_cases.py:49 | `floor("year")` is midnight of 1 January of the input's year |
| ReportDefaults.LedgerEndDay | ledger_manager/api/use_cases.py:17-18 | the default report end is midnight of the next day, strictly after now |
| ReportDefaults.Floor | ledger_manager/api/use_cases.py:49 | the floor of the end is a midnight not after it, on the same day, the first of the month or 1 January for day, month and year floors |
| ReportDefaults.DefaultEnd | ledger_manager/api/use_cases.py:44 | a given end is used as is; without one the end is a midnight after now |
| ReportDefaults.DefaultBegin | ledger_manager/api/use_cases.py:47-53 | a given begin is used as is; else the end floored to the floor type; else 1 January 1980 |
| ReportDefaults.DefaultBeginNotAfterEnd | ledger_manager/api/use_cases.py:14-53 | a defaulted begin is a midnight not after the end |
| ReportDefaults.DefaultAggregation | ledger_manager/api/use_cases.py:78-82 | a given aggregation is used as is; else the floor's aggregation type at shift 1; else daily |
| ReportDefaults.DefaultAggregationFiner | ledger_manager/api/use_cases.py:78-82 | the defaulted aggregation of a floor is one step finer, and daily for the day floor |
| Models.FloorIndex | ledger_manager/api/models.py:16-24 | the position of a floor type in declaration order |
| Models.AggregationIndex | ledger_manager/api/models.py:30-35 | the position of an aggregation type in declaration order |
| Models.AggregationFor | ledger_manager/api/models.py:23-27 | `aggregation_type(shift)` is the aggregation at index `max(index - shift, 0)`, defined while that index is in range |
| Models.DefaultAggregationTable | ledger_manager/api/models.py:23-27 | at shift 1: day and week give daily, month weekly, quarter monthly, year quarterly |
| Models.AggregationMonotone | ledger_manager/api/models.py:23-27 | for shift >= 0 a result always exists, is never coarser than the floor, and keeps the floors' order |
| Models.ToOption | ledger_manager/api/models.py:37-38 | `to_option` is `--` followed by the aggregation's value |
| Models.ToOptionInjective | ledger_manager/api/models.py:37-38 | distinct aggregations give distinct options |
| Models.ToDbRow | ledger_manager/api/models.py:87-88 | the row is `P `, the 19-character datetime, then the symbol, price and price symbol each after one space |
| Models.FormatDbDate | ledger_manager/api/models.py:56-65 | `strftime(DATETIME_FMT)` writes 19 characters of the shape the read pattern's date group matches, with a space before the time |
| Models.FormatDbDatePieces | ledger_manager/api/models.py:56 | `%Y/%m/%d %H:%M:%S` puts the zero-padded fields between `/`, ` ` and `:` at fixed places |
| Models.FormatDbDateFields | ledger_manager/api/models.py:56 | the formatted datetime has the date group's shape and its fields read back as the datetime's fields |
| Models.ParseDbDate | ledger_manager/api/models.py:79 | `arrow.get` on the date group yields a datetime Python can hold, otherwise `BadDate`; with white space other than a space before the time it reads exactly the valid dates, as their midnights, whatever the time digits |
| Models.ParseFormatDbDate | ledger_manager/api/models.py:79 | parsing a formatted datetime gives it back |
| Models.FormatParseDbDate | ledger_manager/api/models.py:65 | formatting a parsed date text gives the text back when a space separates day and time and its hour is not 24 |
| Models.PriceOf | ledger_manager/api/models.py:81-85 | a price group with `.` is a valid price that prints as the group; one with `,` is refused as `BadPrice` |
| Models.PriceRoundTrip | ledger_manager/api/models.py:81-85 | a valid price's text reads back as the price |
| Models.MatchFraction | ledger_manager/api/models.py:60-61 | the fraction digits run to a position from which white space, then a non-space run to the end, follow |
| Models.MatchTailAt | ledger_manager/api/models.py:59-61 | a symbol ending at `k` that the rest of the pattern completes gives a valid cut of the tail |
| Models.MatchTail | ledger_manager/api/models.py:59-61 | the backtracking search over the symbol's end finds a valid cut no longer than the greedy run |
| Models.MatchRow | ledger_manager/api/models.py:57-71 | the match that `DB_ROW_FMT_READ.match` finds is a decomposition of the row that the pattern accepts |
| Models.CutSound | ledger_manager/api/models.py:59-61 | the pieces of a valid cut are well-formed and join back into the tail |
| Models.CutOf | ledger_manager/api/models.py:59-61 | every well-formed tail decomposition has a valid cut that gives it back |
| Models.TailComplete | ledger_manager/api/models.py:59-61 | when any tail decomposition exists the search finds one, and the one with non-empty white space |
| Models.RowComplete | ledger_manager/api/models.py:57-61 | every well-formed decomposition assembles into a row the pattern matches, recovered exactly when the white space before the price and price symbol is non-empty |
| Models.MatchRowIff | ledger_manager/api/models.py:71-74 | a row matches exactly when some well-formed decomposition assembles into it |
| Models.FromGroups | ledger_manager/api/models.py:76-85 | a record is built exactly when both the date and the price group read; it is writable, has the date read, the matched symbols and the price; otherwise the date or the price is refused |
| Models.FromDbRow | ledger_manager/api/models.py:69-85 | the row is stripped of newlines and spaces; no match is `NoMatch`; for the match found, a record is read exactly when its date and price groups read, with the date read, the matched symbols and price, and it is writable |
| Models.TabRowReads | ledger_manager/api/models.py:58-79 | `P 2001/01/01<tab>12:34:56 RUB 30.05 $` matches and reads as the record of 1 January 2001 at midnight |
| Models.FromDbRowNoMatch | ledger_manager/api/models.py:70-74 | `NoMatch` exactly when no well-formed decomposition assembles into the stripped row |
| Models.WrittenWellFormed | ledger_manager/api/models.py:57-62 | the written row's pieces are a well-formed decomposition |
| Models.WrittenAssembles | ledger_manager/api/models.py:87-88 | those pieces assemble into the written row |
| Models.WrittenEnds | ledger_manager/api/models.py:87-88 | a written row neither starts nor ends with a newline or a space |
| Models.StripUnpadded | ledger_manager/api/models.py:70 | stripping leaves such a row, and the row followed by a newline, as the row |
| Models.ReadsBack | ledger_manager/api/models.py:69-88 | any row that strips to a written row reads back as its record |
| Models.RoundTrip | ledger_manager/api/models.py:69-88 | `from_db_row(to_db_row(r)) == r`, with or without the trailing newline |
| PriceStore.ReadLines | ledger_manager/api/services/pricedb.py:23-24 | `readlines` cuts the text into non-empty lines whose concatenation is the text |
| PriceStore.ReadConcatLines | ledger_manager/api/services/pricedb.py:23-24 | reading the concatenation of newline-ended lines gives the lines back |
| PriceStore.ReadLinesAppend | ledger_manager/api/services/pricedb.py:23-24 | after a text that ends with a newline, appended text reads as its own lines |
| PriceStore.ParseAll | ledger_manager/api/services/pricedb.py:24 | the list comprehension succeeds exactly when every line reads, giving one record per line in order |
| PriceStore.RowLines | ledger_manager/api/services/pricedb.py:38 | each row becomes its encoding followed by a newline, in order |
| PriceStore.RowLineIsLine | ledger_manager/api/services/pricedb.py:38 | such a line ends with its only newline |
| PriceStore.ReadWrittenRows | ledger_manager/api/services/pricedb.py:19-38 | reading the written lines of writable rows gives the rows back |
| PriceStore.SortByDate | ledger_manager/api/services/pricedb.py:35 | `sorted(key=date)` is a permutation, sorted by date, and stable: rows of equal date keep their order |
| PriceStore.Earliest | ledger_manager/api/services/pricedb.py:26-28 | `min(key=date, default=None)`: None for no rows, else the first row of least date |
| PriceStore.Latest | ledger_manager/api/services/pricedb.py:30-32 | `max(key=date, default=None)`: None for no rows, else the first row of greatest date |
| PriceStore.PriceDb.constructor | ledger_manager/api/services/pricedb.py:12-13 | a store over a file that is present with the given text, or absent and empty |
| PriceStore.PriceDb.ReadDb | ledger_manager/api/services/pricedb.py:19-24 | a missing file reads as no records; otherwise every line is read as a record |
| PriceStore.PriceDb.FirstRecord | ledger_manager/api/services/pricedb.py:26-28 | fails when the read fails, else the earliest record read |
| PriceStore.PriceDb.LastRecord | ledger_manager/api/services/pricedb.py:30-32 | fails when the read fails, else the latest record read |
| PriceStore.PriceDb.WriteLines | ledger_manager/api/services/pricedb.py:38 | `writelines` appends the lines' concatenation to the text |
| PriceStore.PriceDb.AppendRows | ledger_manager/api/services/pricedb.py:34-38 | the file exists afterwards and its text grows by the lines of the rows sorted by date |
| PriceStore.ReadAfterAppend | ledger_manager/api/services/pricedb.py:19-38 | after appending, a readable store reads as its old records followed by the new rows sorted by date |
| PriceStore.SortedFirstLast | ledger_manager/api/services/pricedb.py:26-32 | in date order the first record is the first row and the last record has the last row's date |
| PriceStore.StoreRoundTrip | tests/test_db_update.py:99-116 | an empty store reads as nothing and has no first or last record; after appending sorted writable rows it reads as them, with the first row as first record, the last row's date on the last record and, when the dates are strictly increasing, the last row itself as last record |
| Rates.TimeseriesUrl | ledger_manager/api/services/apilayer.py:51-52 | the API URL followed by `/timeseries` |
| Rates.AuthHeader | ledger_manager/api/services/apilayer.py:54-55 | the one header `apikey` carries the key |
| Rates.IsoDate | ledger_manager/api/services/apilayer.py:62-63 | `strftime("%Y-%m-%d")` is ten characters: four digits, `-`, two, `-`, two, reading back as the year, the month and the day |
| Rates.RequestFor | ledger_manager/api/services/apilayer.py:58-67 | the request goes to the API URL followed by `/timeseries`, with the one `apikey` header and the four parameters: both dates as `YYYY-MM-DD`, the base and the symbols joined with commas |
| Rates.RequestParams | ledger_manager/api/services/apilayer.py:61-66 | the four parameters in order: both dates as `YYYY-MM-DD`, the base, and the symbols joined with commas |
| Rates.SymbolsParamSplits | ledger_manager/api/services/apilayer.py:65 | symbols without commas split back out of the `symbols` parameter |
| Rates.ParseRateDate | ledger_manager/api/services/apilayer.py:20-22 | `strptime(k, "%Y-%m-%d")` accepts a key only for a real date, giving its midnight; otherwise the key is refused |
| Rates.ParseIsoDate | ledger_manager/api/services/apilayer.py:62-63 | a date written as `YYYY-MM-DD` parses back to its midnight |
| Rates.IsoDateOfParsed | ledger_manager/api/services/apilayer.py:20-22 | a ten-character key that parses is the `YYYY-MM-DD` text of its date |
| Rates.ParseEntry | ledger_manager/api/services/apilayer.py:20-22 | one `rates` entry parses exactly when its key does, keeping its currencies |
| Rates.RatesValidate | ledger_manager/api/services/apilayer.py:17-22 | the validator succeeds exactly when every key parses, and its keys are distinct |
| Rates.RatesValidateKeys | ledger_manager/api/services/apilayer.py:20-22 | a datetime is a validated key exactly when some raw key parses to it |
| Rates.RatesValidateDates | ledger_manager/api/services/apilayer.py:20-22 | every validated key is a midnight Python can hold |
| Rates.RatesValidateDistinct | ledger_manager/api/services/apilayer.py:20-22 | keys that parse to distinct dates keep their entries one to one and in order |
| Rates.AliasOf | ledger_manager/api/services/apilayer.py:81-83 | `aliases.get(code, code)` |
| Rates.DateRecords | ledger_manager/api/services/apilayer.py:78-84 | one record per currency of a date, with the aliased base as symbol and the aliased currency as price symbol |
| Rates.Normalize | ledger_manager/api/services/apilayer.py:77-84 | every yielded record has the aliased base as its symbol |
| Rates.NormalizeLength | ledger_manager/api/services/apilayer.py:77-84 | the number of records is the total number of currencies over all dates |
| Rates.NormalizeAt | ledger_manager/api/services/apilayer.py:77-84 | the record for currency j of date i sits at the position of the currencies before it, with that date, price and aliases |
| Rates.NormalizeFrom | ledger_manager/api/services/apilayer.py:77-84 | every position of the output comes from some date and currency |
| Rates.NormalizeDates | ledger_manager/api/services/apilayer.py:77-84 | the records' dates are the validated dates |
| Rates.GetRates | ledger_manager/api/services/apilayer.py:57-84 | an error status raises the API exception; otherwise the body is validated and flattened into records of valid midnights |
| Rates.ExampleKeys | tests/test_db_update.py:84 | the keys `2022-12-01` to `2022-12-09` parse to the midnights of those days |
| Ledger.Call | ledger_manager/api/services/ledger.py:102-110 | any stderr output raises `LedgerClientException` with it; otherwise the result is stdout |
| Ledger.ToOptionName | ledger_manager/api/services/ledger.py:30-33 | `--` followed by the key with each `_` replaced by `-` |
| Ledger.OptionNameHyphens | ledger_manager/api/services/ledger.py:30-33 | an option name has no `_`, and a key without `_` just gets the `--` prefix |
| Ledger.WithOptions | ledger_manager/api/services/ledger.py:62-69 | adding options to a dictionary of distinct keys keeps them distinct |
| Ledger.WithOptionsKeepsPositions | ledger_manager/api/services/ledger.py:62-69 | existing options keep their places; new names go at the end |
| Ledger.WithOptionsFalsy | ledger_manager/api/services/ledger.py:63-65 | when every given value is falsy the options are unchanged |
| Ledger.WithOptionsLast | ledger_manager/api/services/ledger.py:67 | the last truthy option sets its name's value and leaves every other name as before |
| Ledger.StrippedNonEmpty | ledger_manager/api/services/ledger.py:45-46 | stripped pieces with the empty ones dropped; none is empty or starts or ends with white space |
| Ledger.ParseAccounts | ledger_manager/api/services/ledger.py:45-46 | every account name read from the output is non-empty and stripped |
| Ledger.ParseAccountsLines | ledger_manager/api/services/ledger.py:45-46 | the output of stripped names, one per line, with or without a final newline, reads as those names |
| Ledger.ListOfSet | ledger_manager/api/services/ledger.py:60 | `list(set)` holds each element of the set once |
| Ledger.LedgerCmd.constructor | ledger_manager/api/services/ledger.py:20-28 | the base command is `ledger -f <transactions>`, and `--price-db` is set exactly when the price file exists |
| Ledger.LedgerCmd.OptionsList | ledger_manager/api/services/ledger.py:39-41 | each option's name followed by its value, in order |
| Ledger.LedgerCmd.ListAccounts | ledger_manager/api/services/ledger.py:43-48 | runs `<base> accounts` and reads the names from its output; a failing call fails it |
| Ledger.LedgerCmd.SearchAccounts | ledger_manager/api/services/ledger.py:50-60 | without duplicates, the listed accounts that some pattern matches or occurs in; a failing listing fails it |
| Ledger.SelectAccounts | ledger_manager/api/services/ledger.py:52-58 | the loop over patterns collects exactly the selected accounts |
| Ledger.AddHits | ledger_manager/api/services/ledger.py:55-58 | the inner loop adds exactly the accounts one pattern hits |
| Ledger.SelectedStep | ledger_manager/api/services/ledger.py:54-58 | an account is selected by one more pattern exactly when the earlier ones or the new one select it |
| Ledger.LedgerCmd.AddOptions | ledger_manager/api/services/ledger.py:62-69 | the options become the old ones with the truthy given ones set; arguments and accounts unchanged |
| Ledger.LedgerCmd.AddArguments | ledger_manager/api/services/ledger.py:71-74 | the arguments are extended by the given ones; everything else unchanged |
| Ledger.LedgerCmd.AddAccounts | ledger_manager/api/services/ledger.py:76-80 | the accounts are extended by exactly the searched accounts, without duplicates; a failing listing changes nothing |
| Ledger.LedgerCmd.Build | ledger_manager/api/services/ledger.py:82-83 | the command is the base, the arguments, the option pairs and the accounts, in that order |
| Ledger.LedgerCmd.CallBuilt | ledger_manager/api/services/ledger.py:85-86 | runs the built command |
| Ledger.FreshBuild | ledger_manager/api/services/ledger.py:20-83 | a fresh command with arguments builds as `ledger -f <transactions> <arguments>`, plus `--price-db <path>` when the file exists |
| Chunking.ChunkLoop | ledger_manager/api/use_cases.py:146-154 | the while loop builds exactly the chunk sequence of the range |
| Chunking.ChunksEnds | ledger_manager/api/use_cases.py:146-154 | there is at least one chunk; the first starts at the start and the last ends at the end |
| Chunking.ChunkAt | ledger_manager/api/use_cases.py:149-153 | each chunk but the last ends at its span end before the end, and the next starts at the next step; the last ends at the end |
| Chunking.ChunksCover | ledger_manager/api/use_cases.py:146-154 | on a grid, the chunks hold exactly the values from start to end |
| UseCases.DayStep | ledger_manager/api/use_cases.py:131-135 | for datetimes with the same clock, strict order is order of dates, and is the next day not being after the later date |
| UseCases.Ordered | ledger_manager/api/use_cases.py:144 | `sorted` puts the two ends in order, swapped or not |
| UseCases.SplitByYear | ledger_manager/api/use_cases.py:143-154 | the loop's chunks are the year split of the region |
| UseCases.SplitEnds | ledger_manager/api/use_cases.py:143-154 | the first chunk starts at the earlier end and the last chunk ends at the later end |
| UseCases.SplitChunkAt | ledger_manager/api/use_cases.py:149-153 | each chunk but the last spans a year less a day and ends before the later end, and the next starts the following day, a year after |
| UseCases.SplitChunkOrdered | ledger_manager/api/use_cases.py:143-154 | no chunk ends before it starts, for ends with the same clock |
| UseCases.YearSplitCovers | ledger_manager/api/use_cases.py:143-154 | on ends with the same clock, the chunks cover exactly the datetimes of that clock between the two ends |
| UseCases.SplitSymmetric | ledger_manager/api/use_cases.py:144 | the split does not depend on the order of the ends |
| UseCases.SplitWholeYears | tests/test_db_update.py:12-22 | from 1 January of a year to 1 January two years later: two whole years and a one-day chunk |
| UseCases.SplitMidYear | tests/test_db_update.py:23-27 | from 5 May to 12 August two years later: two year-less-a-day chunks and the remainder |
| UseCases.SplitExampleBefore | tests/test_db_update.py:49-50 | from 1 January to 9 January of the next year: a whole year and the nine days |
| UseCases.SplitExampleAfter | tests/test_db_update.py:51-52 | from 11 May to 12 August of the next year: a year-less-a-day chunk and the remainder |
| UseCases.PlanExample | tests/test_db_update.py:41-70 | store start 1 January, records 10 January and 10 May of the next year, today 12 August of the year after: the plan is exactly the test's four chunks |
| UseCases.SplitAll | ledger_manager/api/use_cases.py:140 | each interval gives at least one chunk, none for no intervals; the chunks start at the first interval's earlier end and end at the last one's later end |
| UseCases.GapBefore | ledger_manager/api/use_cases.py:131-132 | one interval exactly when the first record is after the start, from the start to a day before the record at its time of day |
| UseCases.GapAfter | ledger_manager/api/use_cases.py:134-135 | one interval exactly when the last record is before today, from a day after the record at its time of day up to today |
| UseCases.Gaps | ledger_manager/api/use_cases.py:130-138 | without a first or a last record the whole range from the start to today; with both, nothing is missing exactly when the first is not after the start and the last not before today, and every missing interval lies before the first or after the last record |
| UseCases.PrepareDateIntervals | ledger_manager/api/use_cases.py:122-140 | the plan is empty exactly when both records exist, the first is not after the start and the last is not before today; every missing interval gives at least one chunk |
| UseCases.SplitAllAppend | ledger_manager/api/use_cases.py:140 | `chain(map(split_by_year, ...))` distributes over concatenation |
| UseCases.PlanWithoutRecords | ledger_manager/api/use_cases.py:127-140 | without a first or a last record the plan is the split from the start to today |
| UseCases.PlanWithRecords | ledger_manager/api/use_cases.py:127-140 | with both records the plan is the split of the gap before the first record, if it starts after the start, then of the gap after the last, if it ends before today |
| UseCases.GapBeforeCovers | ledger_manager/api/use_cases.py:131-132 | the left gap covers exactly the days from the start to before the first record |
| UseCases.GapAfterCovers | ledger_manager/api/use_cases.py:134-135 | the right gap covers exactly the days after the last record up to today |
| UseCases.PlanCovers | ledger_manager/api/use_cases.py:122-140 | with both records at midnight, the plan covers exactly the missing days before the first and after the last record |
| UseCases.PlanCoversWithoutRecords | ledger_manager/api/use_cases.py:137-140 | without a record, the plan covers exactly the days between the start and today |
| UseCases.Sync | ledger_manager/api/use_cases.py:117-119 | the batches are the successful fetches in order up to the first failure, which ends the sync |
| UseCases.SyncIntervals | ledger_manager/api/use_cases.py:117-119 | the loop appends each fetched batch sorted by date before the next fetch, and stops at the first failure |
| UseCases.ClientFetch | ledger_manager/api/use_cases.py:108-118 | the client's `get_rates` of an interval returns only midnights a Python datetime holds, so it is a fetch the update can sync with; an end outside those years fails before any request |
| UseCases.UpdatePriceDb | ledger_manager/api/use_cases.py:106-119 | an unreadable store fails and changes nothing; otherwise the plan from its first and last records is synced into it, the file exists afterwards exactly when it did before or some batch was written, and the update fails exactly when a fetch does |
| UseCases.WrittenReadBack | ledger_manager/api/use_cases.py:117-119 | after syncing, a readable store reads as its old records followed by each batch's rows sorted by date |

## Left out

- Logging, configuration loading, the console and the command-line interface are not part of this model.
- The `forward`, `balance` and `average` use cases: their report defaults are modelled; the printing and chaining of calls are not.
- The subprocess, the HTTP client and the file system are parameters or fields. Universal-newline translation on reading is not modelled.
- Prices are the decimal literals written in the file. The conversion to a float, its `repr` on writing and float rounding are left out.
- Time zones: every datetime is naive UTC at second resolution. Microseconds are not modelled.
- `\d` in the row pattern and in `strptime` covers ASCII digits only; Unicode digits are left out. White space (`\s`, `\S`, `strip`) is Python's whole `isspace` set.
- Python's errors for a datetime beyond year 9999 are not modelled in the calendar arithmetic, which runs on unbounded years. Writing and parsing need years 1 to 9999; `UseCases.ClientFetch` fails with `DateOverflow` on an interval outside them.
- `re.compile` errors in `_search_accounts`, and `re.match` itself, are not modelled: the match test is a parameter.
- Floors other than a day are not used by the price-database intervals.
- Ledger.LedgerCmd.SearchAccounts: states membership and no duplicates only, because `list(set(...))` has no defined order.
- Ledger.ListOfSet: states membership and no duplicates only, for the same reason.
- UseCases.YearSplitCovers: coverage is stated only for ends and points with the same time of day. With a different clock, chunks leave sub-day holes between them.
- UseCases.SplitChunkOrdered: stated only for ends with the same time of day, for the same reason.
- UseCases.PlanCovers: stated for midnight dates only. The store's records and the chunks are compared at day resolution.
- UseCases.UpdatePriceDb: the intervals are planned from `clock`, the value `arrow.utcnow()` would give.
- UseCases.SplitWholeYears: states the test's split for any year rather than executing the test's fixed dates.
- UseCases.SplitMidYear: states the test's split for any year, as above.
- UseCases.PlanExample: states the test's plan for any year, as above; the patched `arrow.utcnow` is the `clock` argument.
- Rates.ExampleKeys: states the test's rate keys only. The mocked HTTP response is not part of this model.
- Rates.GetRates: the records follow the order of the response's `rates` and currencies. The request is built, but the HTTP exchange itself is the parameter.
- Models.FormatParseDbDate: excludes hour 24 and white space other than a space before the time. `arrow.get` reads `24:00:00` as midnight of the next day, and a day followed by a tab or a newline as that day's midnight; both format differently.
- Models.RowComplete: recovers the exact decomposition only when the white space before the price and the price symbol is non-empty. Otherwise the engine may settle on another decomposition of the same row.
- ReportDefaults.DefaultBeginNotAfterEnd: without a floor, it requires the end to be on or after 1 January 1980.
