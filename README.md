# Brokerage-note parser: a Dafny model of `trade_parser.py`

This project models the core of `trade_parser.py`. That program reads Brazilian
brokerage notes ("notas de corretagem") as extracted PDF text and builds three
tables from them:

- a table of trades;
- a table of per-note summaries;
- a consistency sheet that compares, for each (invoice, broker, `Tipo`) key, the
  summed trade value with the value the note declares.

The model follows the code path by path:

- **Splitting.** `extract_dates_per_page`, `group_pages_by_date` and
  `prepare_files_for_processing` cut a PDF carrying several trading dates into one
  file per run of pages. A PDF is its sequence of page texts, and the file system
  is a map from path to PDF (modules `Grouping`, `Splitter`).
- **Classification.** `classify_invoice_type`, stated over the already normalised
  text (module `Classifier`).
- **Numbers.** Python's `int()` and `float()` grammar over ASCII digits,
  `_clean_numeric`, and pandas' `round(2)`. Amounts are exact decimals (module
  `Numeric`). `strip`, `split`, `splitlines` and `lower` come from module `Text`.
- **The parsers.** The broker table and the signature match (module `Brokers`).
  `_extract_first_match` (module `Patterns`). `BMFParser._extract_trades` (module
  `BmfExtraction`). The CPF scan of `_extract_top_client_fields` (module
  `ClientFields`). The base `_extract_summary_values` (module `Summary`).
- **The processor.** `parse_pdf`, and `TradeProcessor.process_pdfs` as a class
  whose `parsers` field `register_parsers` replaces (module `Processor`).
- **Reconciliation.** The block of `process_directory` from the `valor_trades`
  column to the `Status` column: the `groupby`, the choice of the declared-value
  column, the two left merges, the fill with 0, the rounding and the tolerance
  test. Also the `.pdf` filter on the directory listing (module `Reconciliation`).

Three things are inputs of the model rather than parts of it:

- the regular-expression engine: a function from pattern, flags and text to the
  first match's group 1;
- `_extract_top_table_fields(text).get("invoice")`;
- `remove_accents(text.lower())`.

The model does implement three small regular expressions itself: the CPF
pattern, which `ClientFields` matches, and the side `^[CV]$` and date
`\d{2}/\d{2}/\d{4}` tests of the trade-line guard, which `BmfExtraction`
checks character by character.

The model follows the code where its comments or its evident purpose suggest other behaviour:

- **Classifier.** There is no fallback vocabulary for futures. A cash-market
  phrase wins even when both BM&F phrases are present.
- **Unknown notes.** A note of unknown kind is not dropped. It still gets a
  summary row, with `Tipo` "Unknown".
- **Sign.** Futures credits are not negated: `valor_trades` is the operation value
  whatever the D/C column says.
- **Tolerance boundary.** A trade total of 100.00 against a declared 100.009
  rounds to a difference of -0.01. That is an `Inconsistência`, not OK
  (`Reconciliation.ToleranceBoundary`).
- **Summaries.** Every summary value is 0.0, because the base
  `_extract_summary_values` is the only one there is.

## Model

| member | source | states |
|---|---|---|
| Text.Tokens | trade_parser.py:388 | `str.split()`: every token is non-empty and free of whitespace |
| Text.TokensOfJoin | trade_parser.py:388 | splitting on whitespace undoes joining non-empty, whitespace-free tokens with one space |
| Text.Strip | trade_parser.py:388 | `str.strip()`: no longer than the input, no whitespace at either end, identity on a string without whitespace |
| Text.SplitLines | trade_parser.py:385 | `str.splitlines()`: no line holds a line boundary; only the empty text has no lines |
| Text.SplitLinesOfJoin | trade_parser.py:285-287 | splitting the page texts joined with "\n" gives the pages back, when no page holds a line boundary and the last one is not empty |
| Text.Contains | trade_parser.py:89-95 | `pat in text` holds exactly when `pat` occurs at some position |
| Text.LowerAsciiNormalForm | trade_parser.py:293 | `lower()` leaves no capital letter, is idempotent, leaves text without capitals unchanged, and gives texts that differ only in letter case the same form |
| Text.RemoveChar | trade_parser.py:298 | `replace(c, "")` leaves no `c` and never lengthens the string |
| Text.ReplaceCharInvertible | trade_parser.py:165 | `replace(a, b)` on a text without `b` leaves no `a`, and replacing `b` back by `a` restores the text |
| Numeric.IntRoundTrip | trade_parser.py:396 | `int()` reads back the decimal spelling of every integer |
| Numeric.ParseInt | trade_parser.py:396 | `int()` succeeds only on an optionally signed digit string, after stripping |
| Numeric.CleanNumericOfFormat | trade_parser.py:339-344 | `_clean_numeric` of an amount printed the Brazilian way ("1.234,56", any sign) is that amount |
| Numeric.CleanNumericIgnoresDots | trade_parser.py:342 | a dot anywhere in the input does not change the value |
| Numeric.CleanNumericExampleCents | trade_parser.py:342 | "28,50" reads as 28.5 |
| Numeric.CleanNumericExampleThousands | trade_parser.py:342 | "2.850,00" reads as 2850 |
| Numeric.CleanNumericExampleInteger | trade_parser.py:342 | "1.234" reads as 1234, the dot being a thousands separator |
| Numeric.CleanNumericOfDottedDigits | trade_parser.py:342 | digits with a dot between them read as the digits without it |
| Numeric.CleanNumericOfDigits | trade_parser.py:342 | a plain digit string reads as its value |
| Numeric.CleanNumericRefusesWord | trade_parser.py:341-344 | a word `float()` refuses, such as "abc", yields 0.0 instead of raising |
| Numeric.CleanNumericRefusesEmpty | trade_parser.py:341-344 | the empty string yields 0.0 |
| Numeric.CleanNumericRefusesTwoCommas | trade_parser.py:341-344 | two decimal commas make two points, which `float()` refuses, so the value is 0.0 |
| Numeric.RoundHundredths | trade_parser.py:554-556 | `round(2)` lands within half a hundredth of the value and breaks ties to even |
| Numeric.RoundsToZeroIff | trade_parser.py:554-557 | a value rounds to zero hundredths exactly when it lies within ±0.005 |
| Numeric.WithinToleranceIffZero | trade_parser.py:557 | a whole number of hundredths passes `abs(x) < 0.01` exactly when it is zero |
| Patterns.FirstCapture | trade_parser.py:331-337 | the capture of the first pattern that matches, and none exactly when no pattern matches |
| Patterns.ExtractFirstMatch | trade_parser.py:331-337 | the stripped group 1 of the first matching pattern under IGNORECASE, DOTALL and MULTILINE, else "" |
| Patterns.LaterPatternsShadowed | trade_parser.py:333-336 | once a pattern matches, patterns appended after the list change nothing |
| Classifier.Classify | trade_parser.py:84-96 | "avista" exactly when a cash phrase occurs; "bmf" exactly when none does and both BM&F phrases do; else "unknown" |
| Classifier.AVistaInContext | trade_parser.py:90-93 | a text classified "avista" stays so inside any larger text |
| Classifier.BmfInContext | trade_parser.py:94-95 | a text classified "bmf" is never "unknown" inside a larger text |
| Classifier.CashPhraseWins | trade_parser.py:90-93 | "negocios realizados" anywhere makes the note "avista" |
| Classifier.BmfPhrasesGiveBmf | trade_parser.py:94-95 | both BM&F phrases and no cash phrase make the note "bmf" |
| Classifier.EmptyIsUnknown | trade_parser.py:96 | the empty text is "unknown" |
| Brokers.AnyMatches | trade_parser.py:482-488 | true exactly when some pattern matches |
| Brokers.MatchBrokerBySignature | trade_parser.py:482-488 | a broker matches exactly when one of its signature patterns matches case-insensitively |
| Brokers.AnyMatchesIffFirstCapture | trade_parser.py:484-488 | some pattern matches exactly when a first capture exists |
| Brokers.SelectBroker | trade_parser.py:440-452 | the first registered broker whose signature matches, or none exactly when none matches |
| Brokers.FirstBrokerUnique | trade_parser.py:441-452 | the broker the loop stops at is unique |
| Brokers.BtgClaimsFirst | trade_parser.py:422-426 | a note with a BTG signature goes to BTG, the first registered broker, whatever else it carries |
| Grouping.DatedIndices | trade_parser.py:126-128 | the indices of the dated pages, each a page that has a date |
| Grouping.DatedIndicesExact | trade_parser.py:126-128 | those indices increase and include every dated page |
| Grouping.GroupPagesByDate | trade_parser.py:119-141 | the loop computes the runs, and they form a date grouping of the pages |
| Grouping.RunsAreDateGrouping | trade_parser.py:119-141 | runs are non-empty, every page carries its run's date, neighbours differ, and read in order they are the dated pages |
| Grouping.DateGroupingUnique | trade_parser.py:119-141 | the date grouping of a page list is unique: any grouping with these properties is the loop's |
| Grouping.RunsLastContiguous | trade_parser.py:129-137 | the last run always holds the run of consecutively dated pages at the end |
| Grouping.RunsNeverMerged | trade_parser.py:129-135 | two pages with the same date and another date between them land in different runs |
| Grouping.RecurringDateSplits | trade_parser.py:119-141 | dates a, b, a give three runs |
| Splitter.PageDate | trade_parser.py:107-116 | the labelled trading-date pattern first, the bare date pattern only when it fails |
| Splitter.Basename | trade_parser.py:165 | `os.path.basename`: the suffix after the last slash, holding no slash |
| Splitter.Stem | trade_parser.py:165 | `os.path.splitext(name)[0]`: the name up to its last dot, unless the dot is leading |
| Splitter.StemOfExtension | trade_parser.py:165 | the stem of stem + "." + extension is the stem |
| Splitter.OutputPathInTempDir | trade_parser.py:165-166 | every split file is written directly inside split_by_date_temp |
| Splitter.SplitFileNameInjective | trade_parser.py:165 | two different dates without '-' give two different split file names |
| Splitter.PassThroughIffOneDate | trade_parser.py:153-157 | a file is passed through exactly when all its found non-empty dates are equal |
| Splitter.TwoDatesTwoRuns | trade_parser.py:158-159 | two distinct dates make at least two runs |
| Splitter.SplitFollowsRuns | trade_parser.py:158-170 | a split file becomes one part per run, at the run's output path, holding exactly the run's pages in order, each carrying the run's date |
| Splitter.RecurringDateCollides | trade_parser.py:158-170 | dates a, b, a give three parts, and the first and the last have the same path |
| Splitter.WrittenPartSurvives | trade_parser.py:167-168 | a part no later part overwrites is on disk as written |
| Splitter.PreparedOnDisk | trade_parser.py:145-172 | every path handed on to processing is on the prepared disk |
| Splitter.SelectPages | trade_parser.py:161-163 | the pages at the run's indices, in order |
| Splitter.WriteRuns | trade_parser.py:159-170 | the paths written and the disk after writing one part per run |
| Splitter.PrepareFilesForProcessing | trade_parser.py:145-172 | the paths to process and the new disk are those of the plan applied file by file |
| BmfExtraction.ParseBmfTokens | trade_parser.py:389-404 | a record exactly when there are at least nine tokens, the side is "C" or "V", the third token starts with a date, and the quantity is an integer |
| BmfExtraction.TradeFieldsArePositional | trade_parser.py:390-401 | `Tipo` is "BM&F"; each field is the token at its position, the amounts read by `_clean_numeric` and the quantity by `int` |
| BmfExtraction.BadQuantityRefused | trade_parser.py:403-404 | a trade-shaped line with a non-integer quantity is dropped |
| BmfExtraction.ExtractBmfTrades | trade_parser.py:383-406 | the loop collects the records of the note's lines, in line order |
| BmfExtraction.GatherFromLines | trade_parser.py:387-402 | every trade comes from some line of the note |
| BmfExtraction.GatherConcat | trade_parser.py:387-405 | the trades of two blocks of lines are the trades of each, in order |
| BmfExtraction.GatherSkips | trade_parser.py:389-404 | a line that is not a trade changes nothing |
| BmfExtraction.TradesAreBmf | trade_parser.py:391 | every extracted trade has `Tipo` "BM&F" |
| BmfExtraction.ParseFormattedLine | trade_parser.py:388-401 | a trade line printed the way a note prints it parses back to that trade |
| BmfExtraction.TradesOfPrintedLines | trade_parser.py:383-406 | the trades of printed trade lines are exactly those trades, in order |
| ClientFields.Search | trade_parser.py:294 | a found CPF matches the pattern and is the match at the leftmost position where the pattern matches, ending where the engine's match there ends; none exactly when no substring matches |
| ClientFields.MatchCounts | trade_parser.py:294 | a match has exactly eleven digits and is 11 to 14 characters long |
| ClientFields.CpfTextOfMatch | trade_parser.py:298 | without its spaces a match keeps its eleven digits, begins and ends with a digit, and has at most 14 characters |
| ClientFields.ScanLinesFirst | trade_parser.py:291-299 | the scan finds nothing exactly when no "cpf" line matches on its own line or the next; otherwise it gives the first such line's match |
| ClientFields.ScanLinesFound | trade_parser.py:294-296 | a found CPF is the match of some line of the text |
| ClientFields.ClientCpfShape | trade_parser.py:289-299 | "" exactly when no "cpf" line yields a match; otherwise eleven digits, at most 14 characters, a digit at each end, no space |
| ClientFields.ExtractTopClientFields | trade_parser.py:289-299 | the loop returns the CPF of the first matching line, or "" |
| Summary.BaseSummaryDeclaresZero | trade_parser.py:350-351 | the base summary holds "Valor das operações" at 0.0, and it is never empty |
| Summary.BusinessValueAbsent | trade_parser.py:40-71 | "Valor dos negócios" is not a summary key |
| Processor.ParseNote | trade_parser.py:263-282 | `GenericParser.parse_pdf`, and its `BMFParser` override at 364-381: the broker name, invoice, date, CPF, the trades (BM&F notes only) and the base summary |
| Processor.EnrichTrades | trade_parser.py:458-465 | the loop builds the enriched trade rows |
| Processor.UnclaimedFileContributesNothing | trade_parser.py:452-478 | a note no broker signature claims (the `continue` at 452-454), or a file that cannot be opened (the `except` at 477-478), adds no row at all |
| Processor.ClaimedFileRows | trade_parser.py:440-477 | a claimed note adds its (BM&F-only) trades with the claiming broker's metadata, and exactly one summary row with its invoice, broker, `Tipo` and the base summary |
| Processor.FileSummaryCount | trade_parser.py:454-477 | one summary row for a claimed note, none otherwise |
| Processor.OneSummaryPerClaimedFile | trade_parser.py:434-480 | the summary table has one row per claimed file |
| Processor.ProcessedConcat | trade_parser.py:434-480 | processing two lists of files gives the rows of each, in order |
| Processor.TradeRowFromFile | trade_parser.py:437-467 | every trade row comes from one of the files |
| Processor.ProcessedShape | trade_parser.py:471-477 | every summary row declares zero, and a batch with trades has summaries |
| Processor.TradeProcessor.constructor | trade_parser.py:419 | no parsers registered yet |
| Processor.TradeProcessor.RegisterParsers | trade_parser.py:422-426 | the parsers are BTG, Itaú, Ágora and XP, in that order |
| Processor.TradeProcessor.MatchParser | trade_parser.py:440-452 | the loop stops at the first broker whose signature matches |
| Processor.TradeProcessor.ProcessFile | trade_parser.py:437-480 | the rows one file adds |
| Processor.TradeProcessor.ProcessPdfs | trade_parser.py:428-480 | registers the parsers and returns the trade and summary tables of the files, in order |
| Reconciliation.StrLessTransitive | trade_parser.py:522-526 | Python's string order is transitive |
| Reconciliation.StrLessTotal | trade_parser.py:522-526 | Python's string order is total |
| Reconciliation.KeyLessTransitive | trade_parser.py:522-526 | the order of the `groupby` keys is transitive |
| Reconciliation.KeyLessTotal | trade_parser.py:522-526 | the order of the `groupby` keys is total |
| Reconciliation.InsertSorted | trade_parser.py:522-526 | inserting a key keeps the key list sorted and adds that key only |
| Reconciliation.SortedKeysSpec | trade_parser.py:522-526 | `groupby` gives each key of the rows once, in increasing order |
| Reconciliation.TradeTotalsSpec | trade_parser.py:522-526 | the group totals hold each key of the trade rows once, in increasing order, and no other key, each with the NaN-skipping sum of that key's `valor_trades` |
| Reconciliation.GroupSumAbsent | trade_parser.py:522-526 | a key with no rows sums to 0 |
| Reconciliation.FirstPresent | trade_parser.py:528-533 | the first candidate column some summary row has, or none when no row has any |
| Reconciliation.DeclaredColumnChosen | trade_parser.py:528-533 | "Valor das operações" is chosen whenever some summary row has it |
| Reconciliation.DedupSpec | trade_parser.py:540-545 | `drop_duplicates` keeps every key once and adds none |
| Reconciliation.MatchingUnique | trade_parser.py:547-550 | with distinct keys the merge matches a key's one row |
| Reconciliation.MatchingFrom | trade_parser.py:547-550 | every matched cell is the cell of a row with that key |
| Reconciliation.CompareStatus | trade_parser.py:552-557 | the difference is within half a hundredth of trade value minus declared value; the row is OK exactly when they are within 0.005 |
| Reconciliation.ToleranceBoundary | trade_parser.py:554-557 | 100.00 against 100.009 gives -0.01 and `Inconsistência`; so does 500.00 against 499.99 |
| Reconciliation.RowsForKey | trade_parser.py:547-557 | a key's rows pair its trade total with each of its declared cells |
| Reconciliation.SheetKeysSpec | trade_parser.py:540-545 | the sheet's keys are distinct, and exactly those of either side |
| Reconciliation.ConsistencySheetRows | trade_parser.py:517-563 | in the corrected block, a sheet exists exactly when a candidate column exists; every key of either side has a row, and every row has a key of either side, the group sum as trade value, a declared value from a summary row with that key (or 0), and its rounded difference and status |
| Reconciliation.ConsistencySheetDistinct | trade_parser.py:535-557 | with distinct summary keys, each key has one row comparing its trade total with its declared value |
| Reconciliation.AsWrittenAgreesWithTrades | trade_parser.py:517-523 | as written, a batch with trades (or with nothing) behaves as corrected; a batch with summaries but no trades raises KeyError 'invoice' |
| Reconciliation.CashOnlyBatch | trade_parser.py:516-557 | one cash-market note: as written KeyError 'invoice', as corrected one row comparing 0 with the declared value |
| Reconciliation.ProcessedValorTrades | trade_parser.py:501-512 | for the rows of `process_pdfs`, `valor_trades` is the operation value, with no D/C sign flip |
| Reconciliation.GroupSumOfOperacao | trade_parser.py:522-526 | a key's total is the sum of its rows' operation values |
| Reconciliation.ProcessedSheet | trade_parser.py:497-557 | for a processed batch, the corrected block builds a sheet exactly when there are summaries, and each row declares 0, totals its key's operation values, and is OK exactly when that total is within 0.005 of zero; the block as written raises KeyError 'invoice' exactly when there are summaries and no trades, and otherwise builds the same sheet |
| Reconciliation.ZeroBatchSheet | trade_parser.py:501-557 | for any batch whose summaries all declare zero and that has summaries whenever it has trades: the corrected block builds a sheet exactly when there are summaries, each row declaring 0 against its key's summed operation values; as written the block raises KeyError 'invoice' exactly when there are summaries and no trades, and otherwise agrees |
| Reconciliation.PdfFilesSpec | trade_parser.py:492-495 | the listing keeps exactly the names ending in ".pdf" in any case, joined to the directory; it is empty, and the run stops, exactly when there is none |
| Reconciliation.PdfNameIgnoresCase | trade_parser.py:492 | the ".pdf" test ignores letter case: names differing only in case are kept alike, "x.PDF" and "x.Pdf" are kept, and "x.pdf " is not |

## Left out

- PDF reading and writing (`pdfplumber`, `PyPDF2`): a PDF is its list of page texts and the file system a map from path to PDF. `os.makedirs` is not modelled.
- The regular-expression engine: every `re.search` except the CPF pattern is a function given to the model. So are `_extract_top_table_fields` and `remove_accents`.
- Unicode case-folding: `lower()` is modelled on ASCII letters only.
- Numeric.IsDigit: only the ASCII digits 0-9 count as digits. On `str`, Python's `int()`, `float()` and the `\d` of `re` accept every Unicode decimal digit, so a BM&F line whose date or quantity is written in, say, Arabic-Indic digits is dropped by the model (`StartsWithDate`, `ParseInt`) but kept by the source (lines 389 and 396), and such a CPF is not found by `ClientFields.Search`.
- Numeric.ParseFloat: models `float()` on finite decimal literals only. Python's `float()` also accepts `inf`, `infinity` and `nan` in any case and with a sign, so `_clean_numeric("nan")` is NaN and `_clean_numeric("-Inf")` is minus infinity (line 342), which then flow into `Valor Operação` and the group sums; `Numeric.CleanNumeric` gives 0.0 for these spellings. Amounts are exact decimals, which have no infinity or NaN.
- Floating point: amounts are exact decimals and `round(2)` is exact half-even rounding. Binary rounding of a value very close to a half-hundredth can differ.
- Splitter.Prepared: requires every listed file to exist. The source does not catch the error a missing file raises.
- Pandas mechanics: frames are sequences of keyed rows. `dropna(how='all')` is the identity, because no summary row is all-missing. A `Tipo` is never missing.
- The renames, the CPF file name at line 579, `export_to_excel` (defined twice, at 588 and 615) and the prints: output formatting, not computation. Line 579 also raises when the batch has no trade rows.
- The start-up cleanup (lines 21-36): it touches the file system only.
- The order of `os.listdir`: an input.
- `client_patterns`, `trade_start_marker` and `trade_end_marker`: kept in the broker table but unused, as in the source.
- `BMFParser.parse_pdf` re-reads the file: modelled as the same text that `process_pdfs` already joined.
- The `except` at 479-480: the one error the model raises inside it, a file that cannot be opened, is caught by `FileResult`'s `path !in disk` branch, and the file contributes nothing (`Processor.UnclaimedFileContributesNothing`). The printed message is not modelled.
- The other files of the repository are not part of this model.

## Findings

| source | as written | input that shows it | evidently intended | confidence | as-written member | corrected member |
|---|---|---|---|---|---|---|
| trade_parser.py:516-526 | The block runs when either frame has an `invoice` column, then groups `df_trades` by invoice, broker and `Tipo`. | A batch whose notes are all cash-market or unknown: `df_trades` has no columns, so `groupby` raises KeyError 'invoice'. | The comment says the block handles missing trades: the sheet should compare each summary with a trade total of 0. | not executed; high for the block itself | Reconciliation.ConsistencyAsWritten (shown by Reconciliation.CashOnlyBatch) | Reconciliation.ConsistencyOf |
