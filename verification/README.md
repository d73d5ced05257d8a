# Belaudiobooks royalty reports and catalogue helpers, modelled in Dafny

This project models the part of the Belaudiobooks site that turns publisher royalty reports
into sale records and shows them to partners. It also models the small pure helpers around the
audiobook catalogue. It covers:

- **the Findaway report parser** of the partners app (`Findaway`), built on the shared report
  format (`ReportFormat`). The format holds the 19 expected column headers, the `Period:` line,
  and the errors a report can raise. The parser reads the Summary sheet:
  - the sale month;
  - the declared net amount;
  - the list of channels.

  It then checks the header of every listed channel sheet and turns every non-blank data row
  into an unsaved sale record paired with its ISBN code. Last, it requires the exact decimal
  sum of the row amounts to equal the net amount.
- **the legacy Findaway parser** of the BigQuery cloud function (`LegacyFindaway`). It reads a
  fixed list of sheets, copies all 19 columns positionally, and does no reconciliation.
- **the sync job** (`SalesSync`). This is `_create_isbns_and_assign` (ISBN resolution against
  the store) together with the `sync_sales_reports` endpoint. The endpoint is a state machine
  over an abstract file source and a record store. It covers:
  - the missing-folder answer (500);
  - the `samples` limit;
  - the empty listing (200, nothing deleted);
  - one delete-all;
  - the per-file loop that stops at the first failure;
  - the summary message.
- **the partner sales page** (`SalesView`). It covers:
  - `aggregateByYear`, the fold of monthly rows into yearly rows by `(book_slug, year)`;
  - the footer totals;
  - the default orderings of the two tables.
- **the template filters**:
  - `by_plural`, `gender` and `duration` (`BooksExtras`);
  - `format_royalty` (`PartnersExtras`).
- **the cover-resizing function and the resized-image cache**:
  - `ImageNames` covers original-image classification, resized names, the checksum-based skip
    decision and the per-run budget.
  - `ImageCache` covers the map from cover URLs to resized copies and its lookup.
- **the catalogue data helpers** (`Books`): people and books with integer ids, the link merge,
  transliteration, and `add_or_sync_book`.
- **the search box's `shortenName`** (`ShortNames`).
- **the Knizhny Voz importer's record cleaning** (`KnizhnyVoz`): name cleaning, the role table,
  and the sorting of people into authors, translators and narrators.
- **the statistics pages** (`Stats`): upcoming birthdays, with the `bisect_left` search as a
  verified method, and the digest of the latest narrations grouped by month.

Library modules give the models Python's and JavaScript's semantics where the code relies on
them:
- `Text`: `split`, `join`, `replace`, `strip`, `lower`, `str(int)`, `int(str)`, `count` and
  string `<`;
- `Decimals`: `decimal.Decimal` as coefficient and scale, with exact `+`, `sum`, `str()` and
  `Decimal(str)`;
- `Calendar`: `datetime.date` validity, date order and the English month-name table;
- `Workbook`: cells, rows and sheets as `openpyxl` yields them with `values_only=True`;
- `Dicts`: insertion-ordered dictionaries;
- `Wrappers`: `Option` and `Result`.

Exceptions are modelled as `Failure` values of a `Result` whose error type names the exception
and its cause. Nothing is mutated: each operation returns the updated values.

## Model

| member | source | states |
|---|---|---|
| ReportFormat.CheckHeader | partners/parsers/findaway.py:106-121 | The header check passes exactly when the row holds the expected names, in order, as strings. On failure the error names the sheet and lists at least one mismatch. The list ends with a count mismatch exactly when the lengths differ. |
| ReportFormat.ValidateHeaders | partners/parsers/findaway.py:106-121 | `_validate_headers` passes exactly on the 19 expected headers. Otherwise it raises a header mismatch for that sheet, listing every column and count mismatch against those 19 names. |
| ReportFormat.MismatchListed | partners/parsers/findaway.py:109-111 | Every column of the zipped overlap whose header differs from the expected name is reported, with its index, the expected name and the actual cell. |
| ReportFormat.MismatchGenuine | partners/parsers/findaway.py:109-111 | Only genuinely mismatched columns of the overlap are reported, each with the right expected and actual values. |
| ReportFormat.MismatchesOrdered | partners/parsers/findaway.py:109-111 | Reported column mismatches appear in increasing column order. |
| ReportFormat.NoMismatchMeansAgree | partners/parsers/findaway.py:109-111 | No column mismatch is reported if and only if every column of the overlap agrees. |
| ReportFormat.LastMismatchIsColumn | partners/parsers/findaway.py:113-116 | Before the count check is added, the list holds column mismatches only. So the count mismatch, when present, is the last entry. |
| ReportFormat.MismatchTexts | partners/parsers/findaway.py:111 | One message per mismatch. |
| ReportFormat.WordRun | partners/parsers/findaway.py:130 | The greedy `\w+` run: its characters are word characters, and the next one is not. |
| ReportFormat.DigitRun | partners/parsers/findaway.py:130 | The greedy `\d+` run: its characters are digits, and the next one is not. |
| ReportFormat.MatchPeriod | partners/parsers/findaway.py:130 | A match of `(\w+) \d+, (\d+)` yields a non-empty word-character month group and a non-empty all-digit year group. |
| ReportFormat.PeriodLineMatches | partners/parsers/findaway.py:128-132 | Any line "<month> <day>, <year>…" whose year is not followed by another digit matches. The groups read back as exactly that month name and year. |
| ReportFormat.WordRunExact | partners/parsers/findaway.py:130 | A run of word characters followed by a non-word character is matched exactly. |
| ReportFormat.DigitRunExact | partners/parsers/findaway.py:130 | A run of digits followed by a non-digit is matched exactly. |
| ReportFormat.PeriodDate | partners/parsers/findaway.py:132-134 | A success is the first day of the named month of that year. Failure happens only for an unknown month name or a year outside 1..9999, as `MONTH_NAMES[...]` and `date()` raise. |
| ReportFormat.FindPeriod | partners/parsers/findaway.py:124-135 | `_parse_period` yields only first-of-month dates in the range `date` accepts. |
| ReportFormat.FindPeriodSkips | partners/parsers/findaway.py:126-131 | Rows that are not a matching "Period:" row are passed over: prefixing them leaves the result unchanged. |
| ReportFormat.PeriodRowDecides | partners/parsers/findaway.py:127-134 | The first matching "Period:" row decides the month, whatever rows follow it. |
| ReportFormat.PeriodExample | partners/parsers/findaway.py:128 | "June 01, 2025 - June 30, 2025" yields the groups "June" and "2025". |
| Findaway.AmountRun | partners/parsers/findaway.py:144 | The greedy `[\d.]+` run: digits and points, and the next character is neither. |
| Findaway.SpaceRun | partners/parsers/findaway.py:144 | The greedy `\s+` run: whitespace, and the next character is not. |
| Findaway.MatchNetAmount | partners/parsers/findaway.py:144 | A match of `([\d.]+)\s+USD` yields a non-empty group of digits and points. |
| Findaway.AmountRunExact | partners/parsers/findaway.py:144 | A run of digits and points followed by another character is matched exactly. |
| Findaway.SpaceRunExact | partners/parsers/findaway.py:144 | A whitespace run followed by a non-space is matched exactly. |
| Findaway.NetLineMatches | partners/parsers/findaway.py:142-146 | Any line "<amount><whitespace>USD…" matches, and the group reads back as exactly the amount text. |
| Findaway.NetLineExample | partners/parsers/findaway.py:142 | "12.28 USD" yields "12.28". |
| Findaway.NetAmountExample | partners/parsers/findaway.py:146 | `Decimal("12.28")` is 1228 at scale 2. |
| Findaway.NetAmountNonNegative | partners/parsers/findaway.py:144-146 | A matched amount that `Decimal` accepts is never negative, since the group has no sign. |
| Findaway.FindNetAmount | partners/parsers/findaway.py:138-147 | `_parse_net_amount` only ever yields a non-negative amount. |
| Findaway.FindNetAmountSkips | partners/parsers/findaway.py:140-145 | Rows that are not a matching "Net Amount:" row are passed over without effect. |
| Findaway.NetRowDecides | partners/parsers/findaway.py:141-146 | The first matching "Net Amount:" row decides the amount, `Decimal` of its group, whatever follows. |
| Findaway.ScanChannels | partners/parsers/findaway.py:154-165 | Every listed channel is a non-empty cell that is neither the "Channel" header nor the marker. |
| Findaway.ParseChannels | partners/parsers/findaway.py:150-168 | A successful `_parse_channels` lists at least one channel, each a genuine channel cell. An empty list raises. |
| Findaway.ChannelsIgnoreRowsBefore | partners/parsers/findaway.py:155-158 | Rows before the "Payments by Channel:" marker do not influence the channel list. |
| Findaway.ChannelsListed | partners/parsers/findaway.py:158-165 | Inside the section every row contributes its first cell, in order, and an empty first cell ends the list whatever follows. |
| Findaway.AmountOf | partners/parsers/findaway.py:201 | An empty cell is `Decimal("0")`. A text cell yields the decimal its text reads as, and fails exactly when the modelled `Decimal()` parser rejects it (see the Decimals line under Left out). |
| Findaway.AmountOfReadsCellText | partners/parsers/findaway.py:201 | The amount agrees with `Decimal(str(cell))`: an integer or fixed-point decimal cell reads back from its own text as the same number, scale included. |
| Findaway.CodeOf | partners/parsers/findaway.py:196 | The ISBN code is "" for a falsy cell and the text of a string cell. |
| Findaway.ParseRow | partners/parsers/findaway.py:183-202 | A row parses exactly when it has all 19 columns and a readable amount. The record then takes title, sales type, retailer, country and currency from columns 0, 1, 6, 8 and 17, the ISBN code from column 4, the quantity from column 12 (0 when falsy) and the amount from column 18. It also carries the month, file name and drive id. |
| Findaway.NonBlank | partners/parsers/findaway.py:92-93 | The blank-row filter keeps no more rows than it was given, and every kept row has a non-empty first cell. |
| Findaway.MapRowsElementwise | partners/parsers/findaway.py:92-96 | Mapping rows succeeds exactly when every row parses. The records are then the rows' own parses, one per row, in order. |
| Findaway.SheetRowsAreNonBlank | partners/parsers/findaway.py:92-96 | When every row has a first cell, the sheet loop parses exactly the non-blank rows, in order. |
| Findaway.MissingChannelFails | partners/parsers/findaway.py:80-84 | A listed channel without a sheet makes the parse fail, wherever it appears in the list. |
| Findaway.EmptySheetContributesNothing | partners/parsers/findaway.py:86-88 | An empty channel sheet is skipped and adds no records. |
| Findaway.MapRowsAppend | partners/parsers/findaway.py:92-96 | Parsing two row lists in turn equals parsing their concatenation: records accumulate in sheet order. |
| Findaway.SheetRowsSucceed | partners/parsers/findaway.py:92-96 | A successful sheet loop parsed exactly the non-blank rows. |
| Findaway.ChannelSheetsAreSelected | partners/parsers/findaway.py:80-96 | A successful channel loop yields one record per selected row: the non-blank data rows of each listed sheet, sheets in list order. |
| Findaway.Amounts | partners/parsers/findaway.py:175 | The amounts summed are the records' amounts, one per record, in order. |
| Findaway.VerifyTotal | partners/parsers/findaway.py:171-181 | A failed reconciliation reports the file, the exact sum of the amounts and the expected net amount. |
| Findaway.VerifyTotalExact | partners/parsers/findaway.py:175-176 | The reconciliation passes exactly when the amounts, written at a common scale, add up to the net amount at that scale. Decimal equality is numeric, so "24.28" equals "24.280". |
| Findaway.ReportSucceeds | partners/parsers/findaway.py:49-101 | A successful parse means all of the following. The Summary sheet exists and gave a month, a net amount and a channel list. The records are the selected rows parsed in order, each stamped with that month, the file name and the drive id. Their amounts add up exactly to the net amount. |
| Findaway.ReportFailsWithSheets | partners/parsers/findaway.py:80-99 | Any failure in the channel-sheet loop is the failure of the whole parse. |
| Findaway.Digits1228 | partners/tests/test_findaway_parser.py:197 | The digits of 1228 are "1228". |
| Findaway.Digits2428 | partners/tests/test_findaway_parser.py:197 | The digits of 2428 are "2428". |
| Findaway.RowsAmountText | partners/tests/test_findaway_parser.py:194-198 | The bad report's row sum, 1228 at scale 2, prints as "12.28" in the mismatch message. |
| Findaway.NetAmountText | partners/tests/test_findaway_parser.py:194-198 | The bad report's net amount, 2428 at scale 2, prints as "24.28". |
| LegacyFindaway.Columns | functions/royalties/parse_findaway_report.py:118-140 | A royalty row has exactly 19 report columns. |
| LegacyFindaway.ParseRow | functions/royalties/parse_findaway_report.py:116-140 | A row parses exactly when it has at least 19 cells. Column i becomes field i unchanged, with the sale month and file name. |
| LegacyFindaway.ParseRows | functions/royalties/parse_findaway_report.py:77-79 | All data rows, blank ones included, succeed exactly when each has at least 19 cells, giving one record per row in order. |
| LegacyFindaway.SheetsYieldDataRows | functions/royalties/parse_findaway_report.py:67-79 | A successful sheet loop yields one record per data row of the listed sheets, in order. Each record holds the first 19 cells of its row and the sale month. |
| LegacyFindaway.OtherSheetsIgnored | functions/royalties/parse_findaway_report.py:67-70 | A sheet outside the list has no influence on the result. |
| LegacyFindaway.OnlyFixedSheetsRead | functions/royalties/parse_findaway_report.py:59-81 | Only Summary, Retail, Subscription and Pool are read. Changing any other sheet changes nothing. |
| LegacyFindaway.ReportRows | functions/royalties/parse_findaway_report.py:48-81 | A successful parse has Summary's period, and one record per data row of Retail, Subscription and Pool, in that order, each with that sale month. |
| SalesSync.Codes | partners/jobs.py:111 | Every non-empty row code is among the codes collected. |
| SalesSync.Link | partners/jobs.py:129-133 | One record per parsed row. |
| SalesSync.LinkElements | partners/jobs.py:129-133 | Each record is its row's draft, linked to the row's own code, or to nothing for an empty code. |
| SalesSync.Resolve | partners/jobs.py:99-133 | One record per row, in order, each with its own draft and code. Every non-empty code is stored afterwards. Only codes not stored before, taken from the rows, are created. The stored codes become the old ones plus the created ones. The store is queried exactly when some code is non-empty. |
| SalesSync.CreatedExactly | partners/jobs.py:120-126 | A code is created if and only if it is a non-empty row code not yet stored. |
| SalesSync.Limit | partners/jobs.py:57-62 | No `samples` keeps all files, and an unreadable one raises. A non-negative value keeps the first min(n, files) files. A negative one keeps all. Either way the result is a prefix of the listing. |
| SalesSync.Fetch | partners/jobs.py:76-77 | A file with no content fails its download. |
| SalesSync.FetchAll | partners/jobs.py:74-77 | One fetch outcome per file. |
| SalesSync.FetchAllSplits | partners/jobs.py:74-77 | The fetch outcomes split at any file into those before it, its own, and those after it. |
| SalesSync.Save | partners/jobs.py:82-85 | Saving appends exactly the file's linked rows and never loses a stored ISBN. |
| SalesSync.ProcessFiles | partners/jobs.py:74-90 | The loop only appends to the records. Without failure it appends exactly the number of rows it counts. |
| SalesSync.ProcessFailsIff | partners/jobs.py:74-90 | The loop fails if and only if some fetched report failed. |
| SalesSync.ProcessAppends | partners/jobs.py:74-90 | Without failure the loop appends exactly all files' rows, in file order. |
| SalesSync.ProcessStopsAtFailure | partners/jobs.py:74-90 | A failure stops the loop with that error. The store keeps exactly the rows of the earlier files. |
| SalesSync.Prepare | partners/jobs.py:38-66 | The job goes on to the delete exactly when a folder id is set, `samples` reads, and a file is left to process. Otherwise it ends with the store untouched and no delete. |
| SalesSync.Replace | partners/jobs.py:67-96 | After one delete, the run answers 200 exactly when no fetched report failed. The store then holds exactly the reports' rows, in file order. |
| SalesSync.Sync | partners/jobs.py:38-96 | A run deletes the existing records at most once, and exactly when there are files to process. A run that deletes and answers has status 200 and leaves exactly this run's rows, in file order. |
| SalesSync.MissingFolderLeavesStore | partners/jobs.py:38-43 | Without a folder id the job answers 500 with its message and changes nothing. |
| SalesSync.NoFilesKeepsRecords | partners/jobs.py:64-66 | With no file to process it answers 200 before deleting, so the existing records survive. |
| SalesSync.SyncReplaces | partners/jobs.py:69-96 | A successful run deletes once. It leaves exactly this run's rows, in file order, and reports the files processed and rows saved. |
| SalesSync.SyncFailureKeepsEarlierFiles | partners/jobs.py:69-90 | A failing file aborts the run with its error, after the delete. The store keeps the earlier files' rows and nothing older. |
| SalesSync.SyncIdempotent | partners/jobs.py:69-96 | Running the job twice leaves the same records as running it once. |
| SalesSync.FetchAllAsWritten | partners/jobs.py:74-82 | One outcome per file, each that file's outcome as written. |
| SalesSync.ProcessSavesNothing | partners/jobs.py:74-90 | Reports that all yield no rows leave the store as it was. |
| SalesSync.SyncAsWrittenEmpties | partners/jobs.py:64-90 | As written, a run that reaches the delete ends with no sale records at all and the stored ISBN codes unchanged. |
| SalesSync.ProcessAsWrittenRaises | partners/jobs.py:74-82 | As written, the loop fails with TypeError at the first report holding a data row. |
| SalesSync.SyncAsWrittenRaises | partners/jobs.py:64-111 | As written, a report with a data row after reports without rows makes the run delete all records, then raise TypeError for that file. The store is left empty. |
| SalesView.SeparatorIsLastBar | books/static/js/sales.js:28 | In a key text no `\|` follows the slug except the separator. |
| SalesView.KeyTextInjective | books/static/js/sales.js:28 | Distinct (slug, year) keys give distinct key strings, even for slugs holding `\|`. So grouping by the string is grouping by the pair. |
| SalesView.FirstIndex | books/static/js/sales.js:29-40 | The first monthly row with a key, or none when no row has it. |
| SalesView.IndexOf | books/static/js/sales.js:29 | The yearly row holding a key, or none when no yearly row has it. |
| SalesView.ExtendFirst | books/static/js/sales.js:27-29 | A later row never changes where a key first occurs. |
| SalesView.ExtendTotal | books/static/js/sales.js:41-43 | A row adds its measure to its own key's total only. |
| SalesView.TotalAbsent | books/static/js/sales.js:41-43 | A key with no rows totals zero. |
| SalesView.FitsOtherKey | books/static/js/sales.js:41-43 | A yearly row stays correct when a row of another key arrives. |
| SalesView.FitsSameKey | books/static/js/sales.js:41-43 | Accruing a row of its own key keeps a yearly row correct. |
| SalesView.FitsNewKey | books/static/js/sales.js:29-43 | A new group is correct once started from its first row and accrued with it. |
| SalesView.OccursBeforeExtends | books/static/js/sales.js:27-29 | First-occurrence order is kept as rows arrive. |
| SalesView.NewKeyAbsent | books/static/js/sales.js:29 | A key missing from the yearly rows occurs in no monthly row. |
| SalesView.FoldFits | books/static/js/sales.js:27-44 | One iteration keeps every yearly row correct. |
| SalesView.FoldOrdered | books/static/js/sales.js:27-44 | One iteration keeps the yearly rows in first-occurrence order. |
| SalesView.FoldCovers | books/static/js/sales.js:27-44 | After one iteration every monthly row's key has a yearly row. |
| SalesView.FoldDescribes | books/static/js/sales.js:27-44 | One iteration preserves the invariant that the yearly rows describe the monthly rows. |
| SalesView.AggregateDescribes | books/static/js/sales.js:25-46 | `aggregateByYear` yields one row per distinct (slug, year), in order of first occurrence. Each row sums quantity, original amount and payable royalty over its monthly rows, and takes title, author and share from the first of them. |
| SalesView.AggregateKeysOccur | books/static/js/sales.js:25-46 | Every yearly key occurs among the monthly rows. |
| SalesView.AggregateKeysCovered | books/static/js/sales.js:25-46 | Every monthly row's key has a yearly row. |
| SalesView.AggregateKeysDistinct | books/static/js/sales.js:25-46 | No key has two yearly rows. |
| SalesView.YearSumAppend | books/static/js/sales.js:106-114 | A column total over yearly rows grows by the appended row's value. |
| SalesView.YearSumUpdate | books/static/js/sales.js:106-114 | Replacing a yearly row changes a column total by the difference. |
| SalesView.AggregateKeepsTotals | books/static/js/sales.js:25-46 | Aggregation preserves each summed column's total over the table. |
| SalesView.Money | books/static/js/sales.js:117 | Money text starts with `$`. |
| SalesView.FooterReadsBack | books/static/js/sales.js:102-118 | The footer reads back as the totals. The quantity text parses to the quantity total, and the money text after `$` parses to the payable total with exactly two decimals. |
| SalesView.FootersAgree | books/static/js/sales.js:143-168 | Over the full table the yearly view's footer equals the monthly view's. |
| SalesView.MonthlyValues | books/static/js/sales.js:125-134 | One sort value per monthly column. Text columns sort lower-cased. |
| SalesView.YearlyValues | books/static/js/sales.js:151-159 | One sort value per yearly column. Text columns sort lower-cased. |
| SalesView.TextLessIrreflexive | books/static/js/sales.js:135 | No title sorts before itself. |
| SalesView.MonthlyOrderMeaning | books/static/js/sales.js:135 | The monthly default order is year descending, then month descending by number (not by name), then title ascending, ignoring letter case. Titles equal but for case tie. |
| SalesView.YearlyOrderMeaning | books/static/js/sales.js:160 | The yearly default order is year descending, then title ascending, ignoring letter case. |
| SalesView.TitlesIgnoreCase | books/static/js/sales.js:49-56 | "apple" sorts before "Banana" in the same year, although 'B' precedes 'a' in code-point order. |
| SalesView.FooterColumns | books/static/js/sales.js:143 | The footer indices 4 and 7 (monthly) and 3 and 6 (yearly) are the quantity and payable-royalty columns. |
| SalesView.FixtureYearly | partners/tests/test_sales.py:193-237 | The fixture's yearly table has two rows: Second Book 2026 unchanged, and First Book 2025 with its two months summed to 15 copies and 7500 cents payable. |
| SalesView.FixtureOrdered | partners/tests/test_sales.py:145-191 | The fixture's rows are listed in the default orders. |
| SalesView.FixtureTotals | partners/tests/test_sales.py:190 | The fixture totals 43 copies and 14500 cents payable. |
| SalesView.MoneyExample | books/static/js/sales.js:117 | 14500 cents display as "$145.00". |
| SalesView.FixtureFooter | partners/tests/test_sales.py:237 | Both tables' footers show 43 and $145.00. |
| BooksExtras.PluralVariant | books/templatetags/books_extras.py:14-21 | The Belarusian plural index. It is 0 exactly for counts ending in 1 other than 11, and 1 exactly for counts ending in 2–4 outside the teens; otherwise 2. |
| BooksExtras.TeensTakeMany | books/templatetags/books_extras.py:16-21 | 11 to 14 (mod 100) take the third form. |
| BooksExtras.PluralByLastTwoDigits | books/templatetags/books_extras.py:14 | The form depends on the last two digits only, not on the sign. |
| BooksExtras.ByPlural | books/templatetags/books_extras.py:12-23 | It succeeds exactly when the comma-separated variants reach the plural index, so always with three. It then gives the variant at that index, which holds no comma. Otherwise it raises IndexError. |
| BooksExtras.Gender | books/templatetags/books_extras.py:26-34 | 'FEMALE' picks the first variant and anything else, including none, the second. It fails exactly when the second is needed and missing. |
| BooksExtras.GenderPlacement | books/templatetags/books_extras.py:26-34 | The picked variant holds no comma. For 'FEMALE' it is the whole text or the text up to the first comma. Otherwise it starts right after the first comma and runs to the end or to the next comma. |
| BooksExtras.ByPluralPicks | books/templatetags/books_extras.py:13-23 | With three or more variants the result is the variant at the plural index. |
| BooksExtras.HourWord | books/templatetags/books_extras.py:45 | `by_plural` with the hour variants always succeeds and picks the hour form at the plural index. |
| BooksExtras.MinuteWord | books/templatetags/books_extras.py:46 | `by_plural` with the minute variants always succeeds and picks the minute form at the plural index. |
| BooksExtras.SecondWord | books/templatetags/books_extras.py:47 | `by_plural` with the second variants always succeeds and picks the second form at the plural index. |
| BooksExtras.DayWord | books/templatetags/books_extras.py:50 | `by_plural` with the day variants always succeeds and picks the day form at the plural index. |
| BooksExtras.IntTextSpaceless | books/templatetags/books_extras.py:52 | A number's text holds no space. |
| BooksExtras.ClockSplit | books/templatetags/books_extras.py:40-42 | Hours, minutes and seconds recombine to the seconds, and each is in range. |
| BooksExtras.DurationWords | books/templatetags/books_extras.py:45-55 | Each unit word in the text is the plural form for the number before it. |
| BooksExtras.DurationFieldsSpaceless | books/templatetags/books_extras.py:52-55 | No field of the duration contains a space. |
| BooksExtras.Fields | books/templatetags/books_extras.py:52-55 | Splitting the duration text at spaces gives back its fields. |
| BooksExtras.DurationReadsBack | books/templatetags/books_extras.py:37-55 | The duration reads back. It has 8 fields with days and 6 without. The day field parses to the days. Hours, minutes and seconds parse back, are in range, and recombine to the seconds. |
| BooksExtras.DaysShownIff | books/templatetags/books_extras.py:49-55 | Days are shown if and only if there are any. |
| PartnersExtras.Truncate | partners/templatetags/partners_extras.py:19 | `int(value)` of a whole share, times the scale's power of ten, is the coefficient. |
| PartnersExtras.FormatRoyalty | partners/templatetags/partners_extras.py:10-20 | The text ends in `%`. |
| PartnersExtras.WholeReadsBack | partners/templatetags/partners_extras.py:18-19 | A whole share's text parses back to an integer equal to the share. |
| PartnersExtras.FractionReadsBack | partners/templatetags/partners_extras.py:20 | Any other share reads back with the same coefficient and scale, so trailing zeros such as "10.50" are kept. |
| PartnersExtras.WholeHasNoPoint | partners/templatetags/partners_extras.py:18-19 | A whole share shows no point. |
| PartnersExtras.FixedShowsPoint | partners/templatetags/partners_extras.py:20 | Fixed-point text with fractional digits shows a point. |
| PartnersExtras.NoPlacesIntegral | partners/templatetags/partners_extras.py:18 | A share with no decimal places is whole. |
| PartnersExtras.PointAfterPrefix | partners/templatetags/partners_extras.py:20 | A sign prefix keeps the point. |
| PartnersExtras.FractionHasPoint | partners/templatetags/partners_extras.py:20 | A fractional share shows a point. |
| PartnersExtras.PointShownIff | partners/templatetags/partners_extras.py:18-20 | The point shows exactly when the share is not a whole number. |
| PartnersExtras.DigitsNoPercent | partners/templatetags/partners_extras.py:19-20 | Digits hold no `%`. |
| PartnersExtras.IntTextNoPercent | partners/templatetags/partners_extras.py:19 | An integer's text holds no `%`. |
| PartnersExtras.DecimalTextNoPercent | partners/templatetags/partners_extras.py:20 | `str(Decimal)` holds no `%`. |
| PartnersExtras.SinglePercent | partners/templatetags/partners_extras.py:18-20 | The `%` the filter adds is the only one. |
| PartnersExtras.TwentyPercent | partners/templatetags/partners_extras.py:14 | 20.00 formats as "20%". |
| PartnersExtras.TenFiftyPercent | partners/templatetags/partners_extras.py:15 | 10.50 formats as "10.50%". |
| PartnersExtras.FifteenTwentyFivePercent | partners/templatetags/partners_extras.py:16 | 15.25 formats as "15.25%". |
| ImageNames.Tail | functions/main.py:55 | The last path part is a slash-free suffix of the path. |
| ImageNames.RStripSlashes | functions/main.py:55 | Stripping trailing slashes leaves a prefix that does not end in a slash. |
| ImageNames.TailAppend | functions/main.py:55 | The last part of `a + b` is the last part of b when b holds a slash, and otherwise the last part of a followed by b. |
| ImageNames.StripThroughSlash | functions/main.py:55 | "folder/" strips back to the folder. |
| ImageNames.PathSplit | functions/main.py:55 | `os.path.split("folder/base")` gives back the folder and the base. |
| ImageNames.StripKeepsDots | functions/main.py:55 | Stripping slashes keeps the dots. |
| ImageNames.PathDots | functions/main.py:55 | A path's dots are its head's plus its tail's. |
| ImageNames.OriginalIff | functions/main.py:53-62 | "folder/base" is an original exactly when the folder is a processed one and the base has one dot. |
| ImageNames.OriginalHasOneDot | functions/main.py:53-62 | An original's whole name has one dot. |
| ImageNames.DotParts | functions/main.py:68 | The two dot-parts rejoin with a dot into the name. |
| ImageNames.SuffixAvoids | functions/main.py:60 | A suffix keeps a missing character missing. |
| ImageNames.SlashedExtension | functions/main.py:60-68 | A slash in the extension would leave the file name dotless. |
| ImageNames.SuffixDots | functions/main.py:69 | The inserted suffix has two dots. |
| ImageNames.NumberPlain | functions/main.py:69 | A size's text has no slash or dot. |
| ImageNames.TailDots | functions/main.py:60 | File-name dots split over stem and suffix. |
| ImageNames.StemTailDotless | functions/main.py:60-68 | An original's stem file part is dotless. |
| ImageNames.InsertedDots | functions/main.py:69 | Inserting the size gives the file name two dots. |
| ImageNames.ResizedTailDots | functions/main.py:65-69 | A resized name's file part has two dots. |
| ImageNames.ResizedNeverOriginal | functions/main.py:53-69 | A resized name is never classified as an original, so copies are never resized again. |
| ImageNames.ResizeSizes | functions/main.py:78-110 | The original is downloaded exactly when it already was or some size is resized. At most one result per size. Outside a dry run each resized size is uploaded tagged with the original's checksum. A dry run uploads nothing. |
| ImageNames.ResizeImage | functions/main.py:72-110 | The original is downloaded exactly when some size needs resizing. |
| ImageNames.ResizedNames | functions/main.py:78-79 | One generated name per size, in order. |
| ImageNames.StaleIff | functions/main.py:82-87 | A name is stale exactly when it is not up to date. |
| ImageNames.ResizesStale | functions/main.py:78-110 | The sizes resized are exactly the stale ones, in order. |
| ImageNames.SkipIff | functions/main.py:82-92 | A size is resized exactly when its blob does not record the original's checksum: missing, without metadata, or with another checksum. |
| ImageNames.CurrentIff | functions/main.py:82-85 | Up to date means the checksum is recorded. |
| ImageNames.Apply | functions/main.py:103-109 | After the uploads, the listing holds the old names and the uploaded ones. |
| ImageNames.AppliedBlob | functions/main.py:103-109 | An uploaded name records the original's checksum, and other names are unchanged. |
| ImageNames.NothingStale | functions/main.py:82-87 | When every size is up to date, nothing is downloaded or uploaded. |
| ImageNames.CurrentAfterApply | functions/main.py:82-109 | After the uploads every size is up to date. |
| ImageNames.SecondRunSkips | functions/main.py:72-110 | A second run over the listing the first run left does nothing and does not download. |
| ImageNames.StaleNames | functions/main.py:65-69 | Generated names are neither the original nor originals. |
| ImageNames.NumberToProcess | functions/main.py:15-16 | The budget is the setting read as an integer, with "1" standing in when it is unset, so an unset budget is 1. |
| ImageNames.NumberToProcessReadsBack | functions/main.py:15-16 | Any whole number written as the setting is read back as that number. |
| ImageNames.Originals | functions/main.py:135-136 | Only originals are selected. |
| ImageNames.SelectedIsPrefix | functions/main.py:134-140 | A positive budget handles the first `budget` originals, in listing order. |
| ImageNames.UnlimitedBudget | functions/main.py:138-140 | A zero or negative budget never reaches zero, so every original is handled. |
| ImageNames.BudgetBound | functions/main.py:134-140 | A positive budget bounds the originals handled. |
| ImageNames.ResizeAll | functions/main.py:135-140 | Uploads never target an original's name. |
| ImageNames.UploadsNotOriginal | functions/main.py:100-109 | One original's uploads are resized names, never originals. |
| ImageNames.ResizeImages | functions/main.py:114-140 | A run never overwrites an original. |
| ImageNames.SizeUploads | functions/main.py:78-109 | The uploads one original makes, including those made before a later size raises: none in a dry run, each tagged with the original's checksum. |
| ImageNames.SizeUploadsOfPlan | functions/main.py:78-109 | When the sizes loop completes, its uploads are exactly the plan's uploads. |
| ImageNames.SizeUploadsStale | functions/main.py:78-109 | Every upload made, even by a loop that later raises, targets a generated name whose blob did not record the original's checksum. |
| ImageNames.RunUploads | functions/main.py:72-140 | The uploads a run makes, including the partial uploads of the original that raises: none in a dry run, and none targets an original. |
| ImageNames.RunUploadsOfSuccess | functions/main.py:135-140 | A run that completes reports exactly the uploads it made. |
| ImageNames.SelectedFromNames | functions/main.py:135-137 | Handled names are listed originals. |
| ImageCache.Register | books/image_cache.py:37-40 | The entry's URL is stored under its original and size. Everything else stays. |
| ImageCache.Entries | books/image_cache.py:31-36 | One entry per listed file, in order. |
| ImageCache.GetImageForSize | books/image_cache.py:44-56 | The stored URL is returned when the cache knows the file and size. The file name is returned exactly otherwise. |
| ImageCache.ThreeParts | books/image_cache.py:32 | A name of three dot-free parts splits back into them. |
| ImageCache.SizePartReadsBack | books/image_cache.py:35 | The size part reads back as the size. |
| ImageCache.TailNoSlash | books/image_cache.py:32 | A slash-free name is its own base name. |
| ImageCache.ResizedEntry | books/image_cache.py:32-40 | A resized file registers its original's URL, its size and its own URL. |
| ImageCache.PartsNoSlash | books/image_cache.py:36 | An original's dot-parts are slash-free. |
| ImageCache.GeneratedNameKeysBack | books/image_cache.py:32-40 | The resizer's name for a copy registers under the original's URL at that size. The two sides of the naming convention agree. |
| ImageCache.OriginalSkipped | books/image_cache.py:33-34 | An original registers nothing. |
| ImageCache.DotlessFails | books/image_cache.py:35 | A dotless base raises. |
| ImageCache.BadSizeFails | books/image_cache.py:35 | A size part that is not "s" and a number raises ValueError. |
| ImageCache.FoldRegisters | books/image_cache.py:31-40 | Every registered entry is in the map, with its URL unless a later file registers the same original and size. |
| ImageCache.FoldKeeps | books/image_cache.py:37-40 | Existing entries stay unless re-registered. |
| ImageCache.FoldOnlyListed | books/image_cache.py:31-40 | Nothing enters the map except what some file registers. |
| ImageCache.CacheOnlyListed | books/image_cache.py:20-41 | Every cache entry was registered by some listed file of the covers folder. |
| ImageCache.SyncCoversOnly | books/image_cache.py:17-30 | `sync_cache` is the loop over the covers folder. |
| ImageCache.CoverRoundTrip | books/image_cache.py:20-56 | When the covers folder lists the resizer's copy and no later file claims the same cover and size, a page asking for that cover at that size gets the copy's URL. |
| Books.MaxId | data/books.py:64-69 | The largest id, or 0, bounds every id. |
| Books.FirstNamed | data/books.py:65-67 | The first person with the name, or none exactly when nobody has it. |
| Books.FirstNamedAt | data/books.py:65-67 | The first holder of a name is found. |
| Books.FirstNamedPrefix | data/books.py:65-71 | Appending people never changes a found name. |
| Books.GetOrAddPerson | data/books.py:63-72 | An existing name returns its first person and leaves the list unchanged. A new name appends a person whose id is above every id. Either way the name resolves to the returned id, and unique ids and names stay unique. |
| Books.NewPersonId | data/books.py:64-70 | A new id is one more than the largest, so 1 for an empty list. |
| Books.GetOrAddIdempotent | data/books.py:63-72 | Asking again returns the same person and adds nobody. |
| Books.ToListOfIds | data/books.py:75-76 | One id per name. People are only appended. |
| Books.ResolvesPrefix | data/books.py:71 | Appending keeps credits resolving. |
| Books.ToListOfIdsResolves | data/books.py:75-76 | Each name resolves to its id in the final list. |
| Books.ToListOfIdsAddsNamed | data/books.py:75-76 | Everyone added bears one of the names. |
| Books.ToListOfIdsUnique | data/books.py:75-76 | Unique ids and names stay unique. |
| Books.ListedAddsNobody | data/books.py:75-76 | Names already listed add nobody. |
| Books.ResolvesOnce | data/books.py:65-67 | A name resolves to one id. |
| Books.ToListOfIdsIdempotent | data/books.py:75-76 | Converting again gives the same ids and adds nobody. |
| Books.MergeLink | data/books.py:80-87 | One incoming link updates the links of its type, or is appended exactly when none exists. No type changes, and the type is present afterwards. |
| Books.MergeLinks | data/books.py:79-87 | No link is removed or moved. Types not coming in are untouched. Each incoming type ends with its last incoming URL. Only new types are appended. |
| Books.StepKeeps | data/books.py:80-87 | An incoming step keeps the links and their types. |
| Books.StepLastWins | data/books.py:80-87 | The last URL of each type wins. |
| Books.StepAppends | data/books.py:86-87 | Only new types are appended. |
| Books.StepCovers | data/books.py:86-87 | Every incoming type is present afterwards. |
| Books.MergeLinksNoAppend | data/books.py:86-87 | Nothing is appended when all types are present. |
| Books.MergeLinksSettled | data/books.py:79-87 | Settled links are unchanged by the merge. |
| Books.MergeLinksIdempotent | data/books.py:79-87 | Merging twice equals merging once. |
| Books.Latin | data/books.py:154-158 | The table maps only to lower-case Latin letters. |
| Books.TranslitChar | data/books.py:163-169 | Each character gives word characters without capitals. |
| Books.Translit | data/books.py:161-170 | `_translit` yields only word characters, with no ASCII capitals. |
| Books.TranslitAppend | data/books.py:163-169 | Transliteration works piece by piece. |
| Books.LowerCharIdempotent | data/books.py:163 | Lower-casing twice equals lower-casing once. |
| Books.TranslitIgnoresCase | data/books.py:163 | Case does not change the name. |
| Books.AsciiNameAppend | data/books.py:165-169 | Plain names concatenate to plain names. |
| Books.TranslitAscii | data/books.py:161-170 | A Belarusian or Russian title gives a plain ASCII file name. |
| Books.SpaceToUnderscore | data/books.py:166-167 | A space becomes `_`. |
| Books.TranslitExample | data/books.py:163-165 | "Мая" gives "maja". |
| Books.FindBook | data/books.py:101-104 | The first book whose title matches ignoring case, or none when no title matches. |
| Books.FindBookAt | data/books.py:101-104 | The first match is found. |
| Books.FirstNullUrl | data/books.py:121-124 | The first link with a null URL, or none when every URL is set. |
| Books.Placed | data/books.py:99-117 | An existing book leaves the list unchanged. Otherwise one book is appended. |
| Books.Target | data/books.py:99-117 | The book's place lies within the list or just after it. |
| Books.Credit | data/books.py:118-120 | One id per credited name. |
| Books.AddOrSyncBook | data/books.py:90-127 | The link types are unchanged. A null URL is raised exactly when some incoming link has one. |
| Books.SyncPlacesBook | data/books.py:99-117 | The book is the first case-insensitive title match, kept with its id, title and cover. Or it is a new book at the end with an id above all ids and the cover downloaded under the transliterated title. No other book changes. |
| Books.SyncUniqueBookIds | data/books.py:99-117 | Book ids stay unique. |
| Books.CreditResolves | data/books.py:118-120 | Authors, narrators and translators resolve to their ids. |
| Books.CreditPeople | data/books.py:118-120 | Crediting only appends people and keeps ids and names unique. |
| Books.ResolvesIn | data/books.py:118-120 | Earlier credits still resolve after later ones. |
| Books.SyncCredits | data/books.py:118-120 | The synced book's credits name its people, even when a null URL is raised afterwards. |
| Books.SyncContent | data/books.py:125-127 | On success only a non-empty description overwrites, and the links are merged into the book's links. |
| Books.SyncNullUrl | data/books.py:121-124 | On a null URL the description and links are untouched, and the error names the first null link's type. |
| Books.ResolvedStable | data/books.py:75-76 | Names already resolving convert to the same ids and add nobody. |
| Books.CreditStable | data/books.py:118-120 | Crediting again changes nothing. |
| Books.SyncFindsAgain | data/books.py:101-104 | After a sync the book is found at the same place. |
| Books.SyncSettled | data/books.py:90-127 | A settled book is not changed by a sync. |
| Books.SyncIdempotent | data/books.py:90-127 | Syncing twice equals syncing once. |
| ShortNames.CollapsedSpaceless | books/static/js/main.js:11 | Collapsing keeps parts space-free. |
| ShortNames.ShortParts | books/static/js/main.js:8-13 | Re-splitting the shortened name gives the collapsed parts. |
| ShortNames.CollapsedParts | books/static/js/main.js:9-12 | Collapsed parts: the last is kept, one-character parts are kept, and longer parts become their initial and a point. |
| ShortNames.ShortenKeepsParts | books/static/js/main.js:7-14 | A shortened name has as many parts as the name. The last part is unchanged, parts of at most one character are unchanged, and every other part is its initial followed by a point. |
| ShortNames.ShortenTwo | books/static/js/main.js:7-14 | "first last" becomes "<initial>. last". |
| ShortNames.ShortenIdempotent | books/static/js/main.js:7-14 | Shortening a shortened name changes nothing. |
| ShortNames.JonDoe | books/static/js/main.js:3 | "Jon Doe" becomes "J. Doe". |
| ShortNames.AsWrittenAgrees | books/static/js/main.js:7-14 | Without empty parts before the last, the code as written equals the corrected function. |
| ShortNames.AsWrittenIdempotent | books/static/js/main.js:7-14 | The code as written is idempotent on such names. |
| ShortNames.LeadingSpaceAsWritten | books/static/js/main.js:10-11 | " Doe" gives "undefined. Doe" as written and " Doe" corrected. |
| KnizhnyVoz.SplitNames | data/sync_knizhny_voz.py:44-50 | An entry stands for at least one name. |
| KnizhnyVoz.CleanName | data/sync_knizhny_voz.py:39-61 | `_clean_name` yields at least one name. |
| KnizhnyVoz.JoinTwo | data/sync_knizhny_voz.py:59 | Two joined pieces are the pieces with the separator between them. |
| KnizhnyVoz.RemoveLoneChar | data/sync_knizhny_voz.py:42-43 | Removing a lone character removes only it. |
| KnizhnyVoz.UnquoteLoneQuote | data/sync_knizhny_voz.py:42-43 | A lone quote is dropped and nothing else. Re-inserting it gives the name back. Any other number of quotes is kept. |
| KnizhnyVoz.SplitNamesPieces | data/sync_knizhny_voz.py:46-50 | Apart from the listed couple, an entry's pieces join back with " і " and none holds " і ". |
| KnizhnyVoz.MissingCharNotContained | data/sync_knizhny_voz.py:53-54 | Text missing a character of a fragment lacks the fragment. |
| KnizhnyVoz.NoDoubleSpace | data/sync_knizhny_voz.py:54 | Text without adjacent spaces has no double space. |
| KnizhnyVoz.RemovePartsFixed | data/sync_knizhny_voz.py:53-54 | The removal loop leaves a name without fragments unchanged. |
| KnizhnyVoz.CleanPieceFixed | data/sync_knizhny_voz.py:52-60 | Cleaning a clean name gives it back. |
| KnizhnyVoz.SwapReadsBack | data/sync_knizhny_voz.py:55-59 | A surname-first name swaps its two words. |
| KnizhnyVoz.SwapWords | data/sync_knizhny_voz.py:58-59 | "surname first" becomes "first surname". |
| KnizhnyVoz.SwapExample | data/sync_knizhny_voz.py:21-25 | "Шчуцкі Сяргей" becomes "Сяргей Шчуцкі". |
| KnizhnyVoz.FragmentFree | data/sync_knizhny_voz.py:28-36 | A name without ',', 'Н', 'А' or 'к' contains none of the non-name fragments. |
| KnizhnyVoz.FirstNameFirst | data/sync_knizhny_voz.py:58 | Names whose second word is not a listed first name are not swapped. |
| KnizhnyVoz.CleanPieceSwaps | data/sync_knizhny_voz.py:52-60 | A surname-first name with nothing else to clean is only swapped. |
| KnizhnyVoz.RoleTable | data/sync_knizhny_voz.py:81-87 | The roles table holds each lower-cased role title once. |
| KnizhnyVoz.RoleTableLast | data/sync_knizhny_voz.py:87 | A role title holds the names of its last role. |
| KnizhnyVoz.RoleTableAbsent | data/sync_knizhny_voz.py:81-87 | A title no role has is absent. |
| KnizhnyVoz.LessThanAll | data/sync_knizhny_voz.py:97-98 | A smaller head keeps a list sorted. |
| KnizhnyVoz.HeadBelow | data/sync_knizhny_voz.py:97-98 | Insertion below the head keeps it sorted. |
| KnizhnyVoz.Insert | data/sync_knizhny_voz.py:95 | Adding a name keeps the list sorted and without repeats, holding the old names and the new one. |
| KnizhnyVoz.InsertAll | data/sync_knizhny_voz.py:95 | Adding names keeps the list sorted and without repeats, holding exactly the old and new names. |
| KnizhnyVoz.SortedUnique | data/sync_knizhny_voz.py:97-98 | A set has one sorted listing. |
| KnizhnyVoz.Classify | data/sync_knizhny_voz.py:91-95 | The narrators stay sorted. |
| KnizhnyVoz.ClassifyLastTranslation | data/sync_knizhny_voz.py:92-93 | The translators are the last translation role's names. |
| KnizhnyVoz.ClassifyNoTranslation | data/sync_knizhny_voz.py:92-93 | Without a translation role the translators are unchanged. |
| KnizhnyVoz.ClassifyNarrators | data/sync_knizhny_voz.py:94-95 | The narrators are exactly the names under narration roles. |
| KnizhnyVoz.Extract | data/sync_knizhny_voz.py:73-111 | The title and description are stripped, the narrators sorted, and the link is the record's page. |
| KnizhnyVoz.ExtractAuthors | data/sync_knizhny_voz.py:88 | The authors are the last author role's names. |
| KnizhnyVoz.ExtractAuthorsDefault | data/sync_knizhny_voz.py:88 | Without an author role the authors are the record's author, cleaned. |
| KnizhnyVoz.ExtractPeople | data/sync_knizhny_voz.py:89-98 | Translators and narrators come from classifying the role table. |
| KnizhnyVoz.ExtractTranslators | data/sync_knizhny_voz.py:91-93 | The translators are the last translation role's names. |
| KnizhnyVoz.ExtractNoTranslators | data/sync_knizhny_voz.py:89-93 | No translation role means no translators. |
| KnizhnyVoz.ExtractNarrators | data/sync_knizhny_voz.py:90-98 | The narrators are exactly the narration roles' names, sorted and each once. |
| Stats.DayKeyOrder | books/views/stats.py:35-36 | `month * 31 + day` orders days as (month, day) does and tells them apart. |
| Stats.ListedAscending | books/views/stats.py:32-35 | People ordered by month and day give ascending keys. |
| Stats.FirstAtLeast | books/views/stats.py:36 | The first position whose key is at least the target. |
| Stats.FirstAtLeastUnique | books/views/stats.py:36 | That position is the unique split point. |
| Stats.BisectLeft | books/views/stats.py:36 | `bisect_left` finds the first position whose key is at least today's. |
| Stats.Rotate | books/views/stats.py:37 | The rotation is a permutation: the tail first, then the head. |
| Stats.Upcoming | books/views/stats.py:40 | The first min(30, n) of the n people are listed. |
| Stats.AroundTheYear | books/views/stats.py:32-37 | Everyone is listed once: first the birthdays still to come this year, then the past ones, each part in calendar order. |
| Stats.NextOccurrence | books/views/stats.py:41-46 | The birthday found is a valid date on that month and day, not before today. |
| Stats.NextOccurrenceFirst | books/views/stats.py:41-46 | No earlier valid date on that month and day is on or after today. |
| Stats.AsWrittenAgrees | books/views/stats.py:41-46 | Whenever the code as written finds a date, it is the next birthday. |
| Stats.AsWrittenFinds | books/views/stats.py:41-46 | For birthdays other than 29 February the code finds a date on or after today, this year or next. |
| Stats.LeapDayAsWritten | books/views/stats.py:41-46 | For a birth date of 2000-02-29 seen on 2025-03-10, the code raises, while the next birthday is 2028-02-29. |
| Stats.NextOccurrenceFinds | books/views/stats.py:41-46 | A valid occurrence in some year, not before today, is found from any earlier starting year. |
| Stats.NextBirthdayFound | books/views/stats.py:41-46 | Up to year 9990, every valid birthday has a next birthday, 29 February included. |
| Stats.AgeThisYear | books/views/stats.py:53 | The age shown is the one reached this calendar year. |
| Stats.CountsLineReadsBack | books/views/stats.py:54-59 | The counts line is the three counts in decimal, separated by " - ", and reads back as them. |
| Stats.RowOf | books/views/stats.py:40-60 | A row exists exactly when the next birthday does. It then holds the date of birth, the person and their counts line. While the next birthday is this year, the age is the one it brings. |
| Stats.Birthdays | books/views/stats.py:29-64 | Rows exist exactly when every listed person has a next birthday. Then there is one row per listed person, in order, each that person's row. |
| Stats.BirthdaysListEveryone | books/views/stats.py:29-64 | Up to year 9990, every listed person gets a row, 29 February birthdays included. |
| Stats.RowsAsWritten | books/views/stats.py:40-60 | As written, the rows, when there are any, number one per person. |
| Stats.RowsAsWrittenMeaning | books/views/stats.py:40-60 | As written, the rows fail exactly when some person's `date` call raises. Otherwise each row is that person's row on the corrected page. |
| Stats.BirthdaysAsWrittenAgrees | books/views/stats.py:29-64 | Whenever the page as written renders, it shows the corrected page's rows. |
| Stats.BirthdaysAsWrittenLeapDay | books/views/stats.py:29-64 | As written, a listed person born on 29 February makes the page raise in any year without that day. |
| Stats.MonthKeyOrder | books/views/stats.py:71 | `year * 12 + month` tells months apart and orders them. |
| Stats.OfMonthMembers | books/views/stats.py:70-72 | A month's narrations are exactly those of that month. |
| Stats.Group | books/views/stats.py:69-72 | Months are grouped once each. |
| Stats.GroupHolds | books/views/stats.py:70-72 | Each month holds its narrations in order. Empty months are absent. |
| Stats.GroupEntries | books/views/stats.py:72 | Every entry is a non-empty month. |
| Stats.GroupHasMonth | books/views/stats.py:70-72 | Every narration's month is grouped. |
| Stats.HeadAbove | books/views/stats.py:73 | The sorted head is the largest month. |
| Stats.InsertDesc | books/views/stats.py:73 | Insertion keeps months descending and is a permutation. |
| Stats.OthersDiffer | books/views/stats.py:73 | Distinct month keys stay distinct. |
| Stats.SortDesc | books/views/stats.py:73 | The sort is descending and a permutation. |
| Stats.Recent | books/views/stats.py:68 | At most the first 100 narrations are used. |
| Stats.Shown | books/views/stats.py:73 | At most three months are shown. |
| Stats.ShownMonths | books/views/stats.py:70-75 | Shown months are latest first, each with all its recent narrations, in order, and at least one. |
| Stats.ShownLatest | books/views/stats.py:73 | A recent narration's month is shown, or three later months are. |
| Text.JoinSplit | books/templatetags/books_extras.py:13 | Joining the pieces of a split gives back the string. |
| Text.SplitJoinChar | books/static/js/main.js:8-13 | Splitting at a character undoes a join of pieces without it. |
| Text.SplitPiecesFree | data/sync_knizhny_voz.py:50 | No split piece contains the separator. |
| Text.SplitCount | books/templatetags/books_extras.py:13 | Splitting at a character gives one more piece than it has occurrences. |
| Text.IntTextRoundTrip | partners/jobs.py:59 | `int(str(i)) == i`. |
| Text.LessTotal | data/sync_knizhny_voz.py:98 | String order is total. |
| Text.LessTransitive | data/sync_knizhny_voz.py:98 | String order is transitive. |
| Decimals.Add | partners/parsers/findaway.py:175 | Decimal `+` keeps the larger scale. |
| Decimals.AddExact | partners/parsers/findaway.py:175 | Decimal `+` is exact. |
| Decimals.SumExact | partners/parsers/findaway.py:175 | `sum` is exact and keeps the largest scale. |
| Decimals.SameAtScale | partners/parsers/findaway.py:176 | Decimal `==` compares values at any common scale. |
| Decimals.DecimalTextRoundTrip | partners/parsers/findaway.py:201 | `Decimal(str(d))` gives back d, scale included, in fixed-point range. |
| Decimals.PointedReadsBack | partners/parsers/findaway.py:146 | "i.f" reads as its digits with the scale of f. |
| Calendar.LeapDayExists | books/views/stats.py:41-46 | 29 February exists exactly in leap years. |
| Calendar.MonthNamesRoundTrip | partners/parsers/findaway.py:11-24 | Each month name reads back as its number. |
| Calendar.MonthNumber | partners/parsers/findaway.py:133 | A known month name maps to a month number in 1..12 whose name it is. |
| Calendar.DaysInMonth | partners/parsers/findaway.py:134 | A month has 28 to 31 days, and February has 29 exactly in leap years. |
| Decimals.ParseUnpadded | partners/parsers/findaway.py:146 | On text without surrounding whitespace, `Decimal()` reads the text exactly as the signed literal parser does. |
| Decimals.RenderReadsBack | partners/templatetags/partners_extras.py:20 | Fixed-point rendering of sign, digits and scale reads back as the same signed coefficient and scale. |
| Text.RemovePrefix | books/image_cache.py:35 | Removing a present prefix leaves the rest, and otherwise the text is unchanged. |
| Dicts.PutGetSame | books/views/stats.py:72 | After an assignment, the key holds the value. |
| Dicts.PutGetOther | data/sync_knizhny_voz.py:87 | Other keys keep their values. |
| Dicts.PutAbsent | books/views/stats.py:72 | A new key goes last. |
| Dicts.PutPresent | data/sync_knizhny_voz.py:87 | An existing key keeps its place. |

## Left out

- Workbook loading (`openpyxl` and XLSX bytes) is a parameter. A workbook is a map from sheet names to rows of cells.
- Workbook: cell values are modelled as None, text, integers or exact decimals. A float cell's conversion through `str()` is not modelled.
- The regular expressions are modelled only for the patterns the parsers use, as greedy runs.
- Decimals: contexts, rounding, infinities, NaN and exponents in `Decimal()` input are not modelled. `str()` covers fixed and scientific notation.
- Drive listing, downloads, database writes and logging are parameters or abstract state.
- Text.ParseInt: Python's `int()` accepts underscores between digits; the model does not.
- BooksExtras.ByPlural: the count is taken as an integer. `abs(int(value))` of a text argument (`int("5")` reads, `int("x")` raises ValueError) is not modelled.
- Text.IsDigit: `\d`, `int()` and `Decimal()` accept every Unicode decimal digit; the model accepts only ASCII digits.
- Decimals: `Decimal()` accepts underscores between digits; the model does not.
- Findaway.AmountOfReadsCellText: does not cover decimal cells whose `str()` is in scientific notation, because the modelled `Decimal()` parser does not read exponents.
- ImageNames.ResizeImages: its Result carries the uploads only of a run that completes. The uploads that stay made when a later original or size raises are given by ImageNames.RunUploads.
- The partner sales server view is not part of this model; the monthly rows are taken as given.
- SalesView: JavaScript float sums are modelled as integer cents, so float rounding is not modelled.
- SalesView: DataTables' sort is modelled only for the default order.
- SalesView.MonthlyOrderMeaning: titles compare lower-cased, code point by code point. Locale collation (`localeCompare`), which DataTables may use for non-ASCII text, is not modelled, and lower-casing is limited as for Text below. The same holds for SalesView.YearlyOrderMeaning.
- Storage, Pub/Sub, Wand resizing and Secret Manager are not modelled.
- ImageNames.Apply: `contentCrc` stands for the resized file's own checksum.
- ImageNames: Python dict iteration order is the listing order.
- KnizhnyVoz: NON_NAME_PARTS is a set, whose order Python does not fix; the model uses the listed order.
- KnizhnyVoz: the couple literal (the `CleanName(Couple)` result) is stated only in the definition; no lemma proves it.
- KnizhnyVoz: network fetching, `_get_duration_sec` and the run loop are left out.
- KnizhnyVoz: `add_or_update_book` and `add_or_update_link` are not part of this model. They do not exist in `data/books.py`, so the model stops at the extracted record.
- ShortNames: strings are code points, not JavaScript UTF-16 units.
- Text: `isalnum` (and so `\w`) is modelled for ASCII, the Latin-1 letters and the Cyrillic letters U+0400-U+052F; the Latin-1 numeric characters ² ³ ¹ ¼ ½ ¾, which Python accepts, are not. `lower` is modelled for ASCII, Latin-1 and U+0400-U+042F only; the other Cyrillic case pairs (U+0460-U+052F, such as Ѡ and Ґ) are left unchanged.
- Books.AddOrSyncBook: the cover download is a parameter. The partial mutation before a null-URL ValueError is the `NullUrl` outcome.
- Stats: the ORM query's order is a precondition (`Listed`), and the digest's input is taken as ordered by date, newest first.
- Stats: the about page is left out. The counts of books a person authored, translated and narrated are fields of the person.
- Stats.Birthdays: the page is modelled with the corrected next birthday, which never raises before year 9999; the code as written is Stats.BirthdaysAsWritten (see Findings). As in the code, the next birthday is computed but not kept in the row.
- Stats.NextOccurrence: it searches only up to year 9999, the last year `date` accepts.
- Django templates, views, admin and other apps are not part of this model.
- Findaway.ParseRow: the code stores the ISBN text in the record's `isbn` field (partners/parsers/findaway.py:196), while the sync job unpacks `(record, isbn)` pairs (partners/jobs.py:111, 129). The model returns the pairs, so that the parser and the job compose; the record itself carries no ISBN until the job links it. The job as written is SalesSync.SyncAsWritten (see Findings).
- Findaway.CodeOf: `row[4] or ""` passes a numeric ISBN cell on as a number, which the text column then stores as its digits. The model turns it into its text directly, and the contract states the result only for falsy and text cells.
- SalesSync.Sync: an empty file list answers before the delete, and the delete comes before any file is downloaded or parsed (partners/jobs.py:64-69).

## Findings

| source | as written | input that shows it | evidently intended | confidence | as-written member | corrected member |
|---|---|---|---|---|---|---|
| books/static/js/main.js:10-11 | An empty part before the last gives `parts[i][0]` = undefined, so the part becomes "undefined." | " Doe" (a leading space) gives "undefined. Doe" | An empty part is kept as it is, giving " Doe" | not executed | ShortNames.LeadingSpaceAsWritten | ShortNames.ShortenIdempotent |
| books/views/stats.py:41-46 | `date(now.year, 2, 29)` raises ValueError in a non-leap year | Today 2025-03-10, born 2000-02-29: the page raises | The next 29 February on or after today (2028-02-29) | not executed | Stats.LeapDayAsWritten | Stats.NextOccurrenceFirst |
| books/views/stats.py:29-64 | One listed person born on 29 February makes the whole birthday page raise in a non-leap year | A listed person born 2000-02-29, today in 2025 | Every listed person gets a row | not executed | Stats.BirthdaysAsWrittenLeapDay | Stats.BirthdaysListEveryone |
| partners/jobs.py:111 | The parser returns bare records (partners/parsers/findaway.py:185-202), and unpacking one as a `(record, code)` pair raises TypeError, after the delete at partners/jobs.py:69 | Any report with one data row: the run raises and the sale records are left empty | The parser returns `(record, code)` pairs and the run stores every row | not executed | SalesSync.SyncAsWrittenRaises | SalesSync.SyncReplaces |
