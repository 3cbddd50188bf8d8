# FTE consolidation, modelled in Dafny

`absence.py` turns staffing workbooks into one long-form ("tidy") table.

- Each workbook holds up to six known sheets: FTE INTERIM QUAI/CODI, QUAI/CODI PERMANENTS and QUAI/CODI ABSENTEISME.
- Each sheet has three preamble rows, then a header row whose cells are either identity labels (Agency, Manager, ContractType or ReasonCode) or dates, then one row per person.
- The program reshapes every sheet to one row per (person, date) holding a number, stamped with its provenance.
- It then concatenates the sheets of a workbook and keeps the rows dated between January 1 of last year and today.
- It keeps one row per business key, the one with the newest `Modified` stamp, formats the date and orders the columns.
- Finally it merges the tables of several workbooks with the same dedup.

The project models that pipeline from the cell grids onward:

| file | module | what it holds |
|---|---|---|
| `wrappers.dfy` | `Wrappers` | `Option` |
| `text.dfy` | `Text` | digits, `str(int)`, `strip()`, `split()` |
| `keys.dfy` | `Keys` | `norm_key` |
| `dates.dfy` | `Dates` | proleptic Gregorian dates, day ordinals, zero-padded rendering |
| `header_dates.dfy` | `HeaderDates` | `excel_serial_to_date`, `parse_header_to_date` |
| `sheets.dfy` | `Sheets` | `SHEET_PROFILE_MAP`, `categorize_sheet` |
| `cells.dfy` | `Cells` | cells, tables, `str()` of a header cell, the pandas coercions |
| `columns.dfy` | `Columns` | `make_unique` (a loop over a counter map), `collapse_similar` |
| `tidy.dfy` | `Tidy` | `tidy_one_sheet` |
| `dedup.dfy` | `Dedup` | `sort_values("Modified", ascending=False).drop_duplicates(keep="first")` |
| `consolidate.dfy` | `Consolidate` | the body of `process_uploaded_xlsx` (the sheet loop as a loop), concatenation, window, dedup, output order, and the cross-file merge |

A cell is `Empty | Text | Num | DateVal | Moment`; `Moment` is a timestamp with a time of day, used for `Modified`. A table is a `Frame`: column labels plus rows.

pandas raises exceptions on some inputs. These are an `Outcome`, either `Done(value)` or `Raised(failure)`, with three failures:

- `IndexError`: a non-empty sheet with fewer than four rows (`iloc[0]` of an empty slice, absence.py:125).
- `KeyError`: a label that `melt`, `df_all["FteDate"]` or `sort_values("Modified")` looks up and that is absent.
- `ValueError`: `dt.date(today.year - 1, 1, 1)` when today is in year 1.

The code catches none of them. A failure in one sheet ends the processing of its workbook, and the loop over uploaded files (absence.py:267-271) does not catch it either. `ProcessFileRaises` states exactly when a workbook raises.

Three pandas heuristics are parameters of the model, grouped in the `Coercions` datatype:

- `looseDate`: `pd.to_datetime(s, dayfirst=True)` on a string;
- `numberOfText`: `pd.to_numeric` on a text cell;
- `dateOfValue`: `pd.to_datetime(v)` on a cell.

The clock readings (`today` and the mtime) are parameters too, so every result is a function of its inputs.

## Model

| member | source | states |
|---|---|---|
| Text.NatText | absence.py:79 | `str(n)` of a natural: decimal digits, no leading zero, whose value is n |
| Text.IntText | absence.py:125 | `str(n)` of an integer is non-empty |
| Text.Strip | absence.py:52 | `strip()`: the result neither starts nor ends with whitespace |
| Text.StripUnchanged | absence.py:52 | text already without surrounding whitespace is unchanged by `strip()` |
| Text.SplitOn | absence.py:59-61 | splitting on a separator gives at least one piece, none containing the separator |
| Keys.NormKey | absence.py:19-25 | every character of the key is stable: no combining mark, no decomposable Latin-1 character, no lower-case letter. The spacing is canonical: only plain spaces, none at either end, never two in a row |
| Keys.NormKeyOpt | absence.py:19-21 | `norm_key(None)` is `""`; any other value is normalised |
| Keys.NormKeyIdempotent | absence.py:19-25 | `norm_key(norm_key(s)) == norm_key(s)` |
| Keys.NormKeyOfJoin | absence.py:22-24 | words of stable characters joined by single spaces are left unchanged |
| Keys.WordsOfJoin | absence.py:24 | `" ".join` then `split()` gives back the words |
| Keys.Words | absence.py:24 | `split()`: every piece is a non-empty run without whitespace |
| Keys.SettledStagesFixed | absence.py:22-24 | decomposition, mark removal and upper-casing leave a string of stable characters unchanged |
| Keys.DecomposeOutputsAreFixed | absence.py:22 | the pieces a character decomposes into do not decompose further |
| Keys.UpperSettles | absence.py:23-24 | upper-casing a fully decomposed non-mark character yields a stable one |
| Keys.WordsKeepSettled | absence.py:24 | `split()` keeps only stable characters when given only stable characters |
| Keys.JoinCanonical | absence.py:24 | joining words with single spaces gives canonical spacing |
| Dates.FromOrdinal | absence.py:44-45 | the date of a day number is the valid date whose ordinal is that number (adding days to a date) |
| Dates.OrdinalInjective | absence.py:45 | two valid dates with the same ordinal are equal |
| Dates.AtMostIsOrdinalOrder | absence.py:223 | comparing dates field by field agrees with comparing their ordinals |
| Dates.ZeroPadWidth | absence.py:234 | a number below 10^w renders zero-padded to exactly w digits |
| Dates.IsoText | absence.py:234 | `strftime("%Y-%m-%d")` of a date is ten characters (its read-back is `HeaderDates.StrptimeOfIsoText`) |
| HeaderDates.SerialEpochOrdinalIsCorrect | absence.py:44 | 1899-12-30 is day 693594 |
| HeaderDates.SerialDayToDate | absence.py:44-45 | 1899-12-30 plus k days is a date exactly when it falls within years 1..9999 (else `OverflowError`, caught as None); its ordinal is the epoch's plus k |
| HeaderDates.Floor | absence.py:45 | `math.floor`: the greatest integer not above the decimal's value |
| HeaderDates.ExcelSerialToDate | absence.py:39-47 | None unless `float(x)` succeeds; when it does, the epoch plus `floor(n)` days |
| HeaderDates.IsoParse | absence.py:54-57 | a date read from an ISO-shaped text has the values of its year, month and day digits. Conversely, when those digits form a valid date, the clock fields are in range and the instant lies in the Timestamp range, a date is read |
| HeaderDates.FirstFormat | absence.py:59-63 | None exactly when every strptime format declines |
| HeaderDates.FirstFormatPicksFirst | absence.py:59-63 | the first format that accepts the text decides the result |
| HeaderDates.Strptime | absence.py:59-63 | a format accepts only text that splits into exactly three pieces on its separator |
| HeaderDates.StrptimeReads | absence.py:59-63 | each format reads its three tokens in its own field order (`%d` first in `%d/%m/%Y` and `%d-%m-%Y`, `%m` first in `%m/%d/%Y`). The result is that date when the tokens are well formed and the date valid, None otherwise |
| HeaderDates.StrptimeRoundTrip | absence.py:59-63 | each of the four formats reads back any date written with zero-padded fields in its field order and with its separator |
| HeaderDates.ResolutionOrder | absence.py:49-69 | the order of resolution: ISO first, then the first accepting strptime format, then the permissive parse, then the serial |
| HeaderDates.ParseStripped | absence.py:52-69 | the same fallback chain, as one conditional, for an already stripped header |
| HeaderDates.IsoTextResolves | absence.py:49-57 | a header written `YYYY-MM-DD` resolves to that date |
| HeaderDates.IsoTextShape | absence.py:36-57 | `YYYY-MM-DD` matches ISO_DATE_RE and reads back as its date |
| HeaderDates.TimestampTextResolves | absence.py:49-57 | a date cell in the header row (`str()` gives `YYYY-MM-DD 00:00:00`) resolves to its date within the Timestamp range |
| HeaderDates.DatetimeText | absence.py:125 | `str()` of a datetime with whole seconds is nineteen characters |
| HeaderDates.DatetimeTextShape | absence.py:36-57 | `YYYY-MM-DD HH:MM:SS` survives `strip()`, matches ISO_DATE_RE and `pd.to_datetime` reads back its date within the Timestamp range |
| HeaderDates.DatetimeTextResolves | absence.py:49-57 | a datetime header cell with whole seconds resolves to its calendar date within the Timestamp range, whatever the permissive parse would say |
| HeaderDates.TimestampText | absence.py:125 | `str()` of a midnight Timestamp is nineteen characters |
| HeaderDates.StrptimeOfIsoText | absence.py:59-61 | `%Y-%m-%d` reads back every date rendered as `YYYY-MM-DD` |
| HeaderDates.SplitThree | absence.py:59-61 | `a-b-c` splits on `-` into `a`, `b`, `c` when none contains `-` |
| Sheets.FallbackProfile | absence.py:107-116 | the area is CODI iff QUAI is absent and CODI present. The employment is ABSENCE iff an absence keyword occurs, INTERIM iff none does and INTERIM occurs, PERMANENT otherwise. The template equals the employment |
| Sheets.CategorizeSheet | absence.py:101-116 | a normalised name in the table gets its entry; any other name gets the fallback; the template always equals the employment |
| Sheets.ProfileKeyIsNormalised | absence.py:27-34 | the six table keys are their own `norm_key` (`norm_key` on the literals is the identity) |
| Sheets.RawSheetsAreInTable | absence.py:12-34 | every target sheet name classifies through the table, never the fallback |
| Sheets.CapitalWordsKey | absence.py:24 | words of capital ASCII letters joined by spaces are already normalised |
| Cells.Label | absence.py:125 | `str()` of a header cell: `"nan"` for a missing one, the text itself, `YYYY-MM-DD 00:00:00` for a date, and `YYYY-MM-DD HH:MM:SS[.ffffff]` for a datetime |
| Cells.Clock | absence.py:125 | the wall-clock fields of an instant are in range and give back its second of the day |
| Cells.MomentHeaderResolves | absence.py:39-69 | a datetime header cell with whole seconds resolves to its calendar date within the Timestamp range |
| Cells.NumberText | absence.py:125 | a whole number renders as `str(int)` |
| Cells.ToNumeric | absence.py:168-169 | `pd.to_numeric`: a number stays itself; a missing value or a date becomes NaN |
| Cells.ToDate | absence.py:222-223 | `pd.to_datetime(..., errors="coerce").dt.date`: a date stays itself exactly when it lies in the nanosecond Timestamp range (1677-09-22 to 2262-04-11) and becomes NaT outside it; a missing value stays missing |
| Cells.IntegerHeaderResolves | absence.py:39-69 | a whole-number header cell k that the permissive parse declines is the serial date 1899-12-30 + k |
| Cells.DeclinedTextIsSerial | absence.py:52-69 | a stripped text that the ISO pattern, the four formats and the permissive parse all decline goes to the serial step |
| Cells.SerialOfIntText | absence.py:42-45 | `float(str(k))` of an integer k gives the serial date of day k |
| Cells.NoFormatAccepts | absence.py:59-63 | text with fewer than three `-`/`/` pieces is accepted by no strptime format |
| Columns.Base | absence.py:74-76 | a stripped label that is not blank and not `nan` (any case) is kept; otherwise it becomes `Col{i+1}` |
| Columns.MakeUnique | absence.py:71-83 | one output label per input label (the per-position properties are the lemmas below) |
| Columns.Relabel | absence.py:77-82 | the suffixing pass keeps one label per base |
| Columns.FirstKept | absence.py:80-82 | a base not met before is emitted verbatim by the suffixing pass |
| Columns.RepeatSuffixed | absence.py:77-79 | a base met k ≥ 1 times before is emitted as `base_k` |
| Columns.RelabelOfDistinct | absence.py:77-82 | distinct bases pass unchanged |
| Columns.BasesOfClean | absence.py:74-76 | clean labels are their own bases |
| Columns.MakeUniqueLoop | absence.py:71-83 | the loop with its `seen` map computes `MakeUnique` |
| Columns.LoopStep | absence.py:77-82 | one iteration: a new base enters `seen` at 0 and is emitted as is; a known one has its counter bumped and is emitted as `base_k` |
| Columns.SeenAfterCounts | absence.py:72-82 | after n labels, `seen` holds exactly the bases met so far, each with (occurrences − 1) |
| Columns.FirstOccurrenceKept | absence.py:80-82 | the first occurrence of a base is emitted verbatim |
| Columns.RepeatOccurrenceSuffixed | absence.py:77-79 | the k-th repeat of a base is emitted as `base_k` |
| Columns.BlankGetsPlaceholder | absence.py:75-76 | a blank or `nan` label at index i has base `Col{i+1}`, and is emitted so when no earlier base is `Col{i+1}` |
| Columns.MakeUniqueOfDistinct | absence.py:71-83 | distinct clean labels are left unchanged |
| Columns.BasesSurvive | absence.py:71-83 | every base appears in the output |
| Columns.NotAlwaysDistinct | absence.py:71-83 | `["a","a","a_1"]` gives `["a","a_1","a_1"]`: the output is not always pairwise distinct |
| Columns.SuffixClash | absence.py:77-82 | for any label `a`, the suffixing pass turns `[a, a, a_1]` into `[a, a_1, a_1]` |
| Columns.SimilarLabels | absence.py:86 | the labels equal to `base` or starting with `base.` |
| Columns.FirstPresent | absence.py:92 | `bfill(axis=1).iloc[:, 0]`: the first non-missing cell, scanning left to right, or missing when all are |
| Columns.KeptLabels | absence.py:98-99 | the labels left after dropping the similar ones other than `base` |
| Columns.CollapseSimilar | absence.py:85-99 | the table is unchanged when nothing matches or only `base` matches. Otherwise the row count is kept and the columns are the kept ones, plus `base` appended when it was absent |
| Columns.KeptLookup | absence.py:97-99 | in a collapsed row, `base` holds the merged cell and any other kept label its old cell |
| Columns.CollapsedRow | absence.py:92-99 | each collapsed row is the kept cells plus, when `base` was absent, the merged cell |
| Columns.CollapseRows | absence.py:85-99 | after a collapse, `base` exists and holds the first non-missing similar cell, converted. No other `base.*` label remains. Every label not similar to `base` keeps its cell |
| Tidy.Pad | absence.py:124-125 | a short header row is padded with missing cells to the sheet width, its own cells kept |
| Tidy.ValuedColumns | absence.py:128 | exactly the positions of the columns that hold a value, in order |
| Tidy.Project | absence.py:128 | keeping columns keeps their labels and their cells |
| Tidy.DropEmptyColumns | absence.py:128 | the rows are kept, and there are no more columns than before |
| Tidy.DropEmptyColumnsKeeps | absence.py:128 | every kept column holds a value; every column with a value is kept with all its cells |
| Tidy.Cleaned | absence.py:124-129 | the promoted, pruned, relabelled table keeps one row per data row |
| Tidy.Needed | absence.py:133-138 | every template begins with Agency and Manager |
| Tidy.DateColumns | absence.py:140 | exactly the labels whose header resolves to a date |
| Tidy.NonDateColumns | absence.py:144 | exactly the labels not among the date columns |
| Tidy.BuildRenameMap | absence.py:146-149 | the loop builds the positional rename map |
| Tidy.RenameMapEntries | absence.py:146-149 | a label is renamed iff it is one of the first min(len(needed), len(non-date)) non-date labels; its new name is that of its last position |
| Tidy.RenameIsPositional | absence.py:146-150 | with distinct non-date labels, the i-th one becomes the i-th template name |
| Tidy.SalvageRenames | absence.py:153-156 | ABSENCE with ContractType and no ReasonCode renames it to ReasonCode; PERMANENT does the converse; INTERIM changes nothing |
| Tidy.SalvageKeepsNeeded | absence.py:153-156 | a template label present before the salvage is still present after it |
| Tidy.IdVars | absence.py:158 | exactly the template labels the table has |
| Tidy.IdentitySurvives | absence.py:144-160 | when a non-date column exists, at least one identity column survives the renames |
| Tidy.IdCells | absence.py:162 | the identity cells of a data row, one per identity variable, each looked up by its label |
| Tidy.MeltColumn | absence.py:162 | one reading per data row for a date column; a reading is in it iff it is some data row's reading of that column (its identity cells, the header, the cell under the header) |
| Tidy.MeltAll | absence.py:162 | `melt`: (date columns × data rows) readings; a reading is in it iff it is the reading of some date column and some data row |
| Tidy.MeltAllAppend | absence.py:162 | `melt` lists the date columns in order: melting a then b gives a's readings, then b's |
| Tidy.WithDates | absence.py:164-166 | a dated reading is in the result iff some input reading's header resolves to a date, and it carries that reading's cells and that date; never more rows |
| Tidy.WithDatesAppend | absence.py:164-166 | the date filter keeps the order of the readings |
| Tidy.WithDatesKeepsAll | absence.py:164-166 | when every header is a date, no reading is dropped |
| Tidy.NoUndatedRows | absence.py:162-166 | melting resolvable date columns gives (date columns × rows) dated readings |
| Tidy.WithNumbers | absence.py:168-169 | a measured row is in the result iff some dated reading's FTE coerces to a number, and it carries that number, those identity cells and that date; never more rows |
| Tidy.WithNumbersAppend | absence.py:168-169 | the numeric filter keeps the order of the rows |
| Tidy.Missing | absence.py:177-179 | exactly the labels among Manager, ContractType and ReasonCode that the table lacks |
| Tidy.Reshape | absence.py:162-179 | at most (date columns × data rows) output rows |
| Tidy.ReshapeContents | absence.py:162-179 | the labels are the identity columns, the stamp columns and the null-filled ones. A row is in the result iff some date column v and data row i yield it: v's header resolves to a date d, the cell of row i under v coerces to a number x, and the row is row i's identity cells, x, d, the stamp and the nulls |
| Tidy.ReshapeRowSource | absence.py:162-179 | every output row comes from a date column and a data row as above |
| Tidy.ReshapeRowKept | absence.py:162-179 | every date column and data row whose header is a date and whose FTE is a number contribute their row |
| Tidy.ReshapeAppend | absence.py:162-179 | the output is ordered by date column: the rows of date columns a then b are a's rows followed by b's |
| Tidy.StampedAppend | absence.py:171-179 | stamping keeps the order of the measured rows |
| Tidy.ReshapeRows | absence.py:162-179 | the reshaped table is well shaped and has the stamp columns and Manager, ContractType and ReasonCode. Every row has a numeric FTE, a date, and the sheet's stamp |
| Tidy.StampedRows | absence.py:171-179 | the same, for the stamped table built from the measured readings |
| Tidy.Stamped | absence.py:171-179 | one stamped row per measured reading; a row is in the table iff it is the stamped row of some measured reading |
| Tidy.StampRowCells | absence.py:171-175 | the cells of a stamped row, position by position |
| Tidy.StampedAt | absence.py:171-179 | looked up by label, a stamped row has a numeric FTE, a date FteDate and the five provenance cells |
| Tidy.TidyOneSheet | absence.py:119-181 | an empty grid gives the empty table. `IndexError` is raised iff the grid is non-empty with fewer than four rows; `KeyError` only for a grid with four or more. A non-empty result is well shaped, has the stamp and fill columns, every row stamped with this sheet's provenance, and at most (data rows × date columns) rows |
| Tidy.TidyOneSheetIsReshape | absence.py:119-179 | a non-empty answer is the reshape of the cleaned, relabelled sheet over its date columns, with this sheet's stamp |
| Tidy.TidyOneSheetRows | absence.py:119-179 | a non-empty answer has the tidy labels, and a row is in it iff some date column and data row of the cleaned, relabelled sheet yield it: the header resolves to a date, the FTE cell coerces to a number, and the row carries that row's identity cells, the number, the date and the stamp |
| Tidy.TidyEmptyExactly | absence.py:119-160 | for a grid with a header row, the result is the empty table iff no header resolves to a date or no template column survives; with a date column and a non-date column it is never empty |
| Tidy.NeededAreIdentity | absence.py:133-160 | every identity variable is one of the four identity labels |
| Dedup.Insert | absence.py:230 | inserting a row adds exactly that row (multiset) |
| Dedup.SortByStamp | absence.py:230 | the sort is a permutation of its input |
| Dedup.InsertDescending | absence.py:230 | insertion keeps the order newest first, missing stamps last |
| Dedup.SortDescending | absence.py:230 | the sorted rows are newest first, missing stamps last |
| Dedup.KeptIndices | absence.py:230 | the positions `drop_duplicates` keeps increase strictly |
| Dedup.KeyOf | absence.py:230 | a row's key has one cell per key column |
| Dedup.KeepFirst | absence.py:230 | `drop_duplicates(keep="first")` over a prefix never yields more rows than the prefix |
| Dedup.KeepFirstAt | absence.py:230 | the k-th kept row is the row at the k-th kept position, and no earlier row has its key |
| Dedup.KeepFirstDistinct | absence.py:230 | no two kept rows share a key |
| Dedup.KeepFirstCovers | absence.py:230 | every key among the rows is the key of a kept row |
| Dedup.Deduplicate | absence.py:230 | never more rows than the input |
| Dedup.DeduplicateDistinct | absence.py:230 | after the dedup no two rows share a business key |
| Dedup.DeduplicateCovers | absence.py:230 | every input key survives in some row |
| Dedup.DeduplicateFromInput | absence.py:230 | every kept row is an input row |
| Dedup.FirstOfKeyNewest | absence.py:230 | in newest-first order, the first row of a key is at least as new as any row with that key |
| Dedup.DeduplicateKeepsNewest | absence.py:230 | the kept row of a key has a `Modified` at least as new as every input row with that key (a missing stamp counts as oldest) |
| Consolidate.Present | absence.py:201-203 | exactly the listed names that are present in the workbook; distinct names stay distinct |
| Consolidate.Gather | absence.py:207-213 | the sheet loop: never more tables than sheets |
| Consolidate.GatherDone | absence.py:207-210 | the loop completes iff no sheet raises |
| Consolidate.GatherRaises | absence.py:207-210 | the loop raises e iff some sheet raises e and every earlier sheet completed |
| Consolidate.GatherStep | absence.py:208-210 | one iteration: a raising sheet ends the loop; otherwise a non-empty table is appended |
| Consolidate.GatherNothing | absence.py:207-213 | when every sheet gives an empty table, nothing is collected |
| Consolidate.GatherRaisedStays | absence.py:207-210 | once raised, the loop's outcome no longer changes |
| Consolidate.GatherKeeps | absence.py:207-210 | the collected tables are exactly the non-empty sheet results |
| Consolidate.SheetOutcomes | absence.py:207-208 | one outcome per present sheet |
| Consolidate.CollectOne | absence.py:208-210 | the loop body advances the loop by one sheet |
| Consolidate.CollectSheets | absence.py:207-210 | the `for` loop over the sheets computes `Gather` |
| Consolidate.AddLabels | absence.py:215 | the union of two label lists, first list first; distinct lists stay distinct |
| Consolidate.UnionLabels | absence.py:215 | the concatenated labels are distinct and include every table's labels |
| Consolidate.Realign | absence.py:215 | a realigned row has one cell per output label |
| Consolidate.RealignLookup | absence.py:215 | realigning a row keeps the cell under each of its labels |
| Consolidate.AlignRows | absence.py:215 | every concatenated row has one cell per output label |
| Consolidate.ConcatFrames | absence.py:215 | `pd.concat`: well shaped, distinct labels, every input label present |
| Consolidate.AlignRowsOrigin | absence.py:215 | every input row appears realigned, and every output row is a realigned input row |
| Consolidate.ConcatKeepsCells | absence.py:215 | each input row survives concatenation with the same cell under every label it had |
| Consolidate.KeepInWindow | absence.py:222-223 | a row is kept iff it is an input row whose FteDate is known and lies in [start, end] |
| Consolidate.Prepared | absence.py:218-220 | relabelling and the two collapses keep the table well shaped |
| Consolidate.PreparedKeeps | absence.py:218-220 | a clean label that neither collapse drops is still a column afterwards |
| Consolidate.StampLabelsSurvive | absence.py:218-220 | FteDate and Modified are clean and survive both collapses |
| Consolidate.Windowed | absence.py:222-223 | `KeyError` when FteDate is missing; otherwise a well shaped table |
| Consolidate.Deduped | absence.py:225-230 | `KeyError` when Modified is missing; otherwise a well shaped table |
| Consolidate.DedupedDistinct | absence.py:225-230 | after the dedup no two rows share a business key |
| Consolidate.DedupedNewest | absence.py:222-230 | every windowed row's key survives in a row at least as new |
| Consolidate.FormatRow | absence.py:234 | the FteDate cell becomes its `YYYY-MM-DD` text (or missing); every other label keeps its cell |
| Consolidate.Others | absence.py:242 | the labels not in front, in order; distinct labels stay distinct |
| Consolidate.Ordering | absence.py:236-243 | the output labels are exactly the input labels. They begin with the listed labels that are present, in list order. Distinct labels stay distinct |
| Consolidate.Finish | absence.py:234-243 | formatting and reordering keep every row and exactly the same labels |
| Consolidate.FinishRow | absence.py:234-243 | in the finished table, every label keeps its cell, except FteDate, which holds its ISO text |
| Consolidate.ConsolidatedWindow | absence.py:222-243 | every output row's FteDate is the ISO text of a date between January 1 of last year and today |
| Consolidate.ConsolidatedDone | absence.py:215-243 | when every collected table has FteDate and Modified, the steps after the loop raise nothing |
| Consolidate.CollectedStamped | absence.py:207-210 | every collected table has FteDate and Modified |
| Consolidate.TidiedStamped | absence.py:171-175 | a non-empty sheet table has FteDate and Modified |
| Consolidate.FileResultRaises | absence.py:212-245 | with stamped tables, the file raises exactly what the loop raised |
| Consolidate.ProcessWorkbook | absence.py:184-245 | the per-file method computes `ProcessFile` |
| Consolidate.ProcessFileRaises | absence.py:184-245 | a file raises e iff today is in year 1 and e is `ValueError`, or, otherwise, the first raising target sheet raises e |
| Consolidate.ProcessFileNoRows | absence.py:201-213 | a file whose target sheets all give empty tables gives the empty table |
| Consolidate.ProcessFileWindow | absence.py:185-234 | every row of a file's table has an FteDate that is the ISO text of a date in [January 1 of last year, today] |
| Consolidate.NonEmpty | absence.py:266-271 | exactly the file tables with rows |
| Consolidate.MergeFiles | absence.py:266-284 | "no usable data" iff every file table is empty. Otherwise a well shaped table carrying every non-empty table's labels |
| Consolidate.MergeDistinct | absence.py:279-284 | after the cross-file dedup no two rows share a business key |
| Consolidate.MergeNewest | absence.py:279-284 | every row of the files survives by key in a row at least as new |

## Left out

- The Streamlit page, the upload widget, the messages and the download button (absence.py:257-298) are presentation. The loop over uploaded files (absence.py:266-271) appears only as the list of per-file tables that `MergeFiles` takes.
- `df_to_csv_bytes` (absence.py:247-254) is serialisation by a library call.
- Reading the workbook and `seek` (absence.py:189-205) are I/O; a workbook is a map from sheet name to grid. The order of `x.items()` is taken to be the order of the target sheet list in both branches of absence.py:195-205. The reader's own `ValueError` for a missing sheet, which the code catches, is not modelled.
- The clock reads (absence.py:185, 190) are parameters. `Modified` is a count of microseconds since 0001-01-01, and the window compares dates only. Nanoseconds of a pandas Timestamp are not modelled. The mtime is taken to lie in the Timestamp range (1677-09-22 to 2262-04-11); outside it `pd.to_datetime(file_mtime)` (absence.py:175) would raise, and `TidyOneSheet` does not.
- Keys.NormKey: decomposition and upper-casing cover ASCII and the Latin-1 block. That covers the letters U+00C0–U+00FF, the no-break space as a space, and the compatibility mappings of the symbols U+00A8–U+00BF: `ª`/`º` become `a`/`o`, the superscripts digits, the fractions `1⁄4`-style triples, the spacing accents a space and a mark, and `µ` the Greek mu. The Greek mu is upper-cased to capital mu, but no other Greek letter is. Other scripts pass through unchanged, and `ß` stays `ß` where Python gives `SS`. Whitespace is Python's `str.isspace` set: tab to carriage return, U+001C–U+001F, the space, U+0085, U+00A0, U+1680, U+2000–U+200A, U+2028, U+2029, U+202F, U+205F and U+3000.
- Cells.NumberText: a whole number in a header cell renders as `str(int)` (`45306`). A float column would render `45306.0`; it still reaches the serial step, but the permissive parse is then asked about the other text. Other fractions render as their exact decimal expansion to 17 places, not as Python's shortest float repr.
- HeaderDates.ExcelSerialToDate: `float()` is modelled on plain decimal text (sign, digits, one point). Exponents, `inf`, `nan`, underscores and surrounding spaces are read as not convertible. The decimal is read exactly, where `float()` rounds to the nearest double: `45306.99999999999999999` floors to 45306 in the model, while Python reads 45307.0 and gives day 45307. `float()` also accepts non-ASCII decimal digits; the model does not.
- HeaderDates.Strptime: `%Y` takes exactly four digits and `%m`/`%d` one or two digits. Python's tolerance for other widths and for surrounding whitespace is not modelled. A digit is an ASCII digit, while `\d` in ISO_DATE_RE and in strptime's patterns also accepts other Unicode decimal digits.
- The permissive `pd.to_datetime(s, dayfirst=True)` fallback, `pd.to_numeric` on text and `pd.to_datetime` on a cell are the uninterpreted `Coercions` functions. Only their fixed cases are stated: numbers, missing values and dates.
- Consolidate.Finish: `FTE.round(2)` (absence.py:232-233) is not applied; the numbers are kept exact.
- Dedup.SortByStamp: the sort is stable. pandas' default sort is not, so which of several rows with equal `Modified` survives is unspecified in the source. The proved property is only that the survivor is among the newest.
- Consolidate.DedupedDistinct: distinctness of business keys is stated on the table right after the dedup, before FteDate is reformatted and the columns reordered. Formatting could in principle merge two date cells into one text; the reordered table is not restated.
- Cells.CellOf: a table can hold one label twice (`make_unique` does not prevent it). Lookups use the first column with the label, where pandas would return a sub-table or raise. `pd.concat` of tables with repeated labels raises in pandas; the model realigns them by first occurrence instead.
- Consolidate.ConcatFrames: the labels are ordered by first appearance across the tables. pandas may sort a non-aligned union of labels; the output order of absence.py:236-243 puts the listed labels first either way.
- Cells.Label: a datetime with non-zero microseconds renders with `.ffffff`. That text does not match ISO_DATE_RE, so its resolution is left to the permissive parse, and `MomentHeaderResolves` covers only whole seconds.
- Tidy.TidyOneSheet: `melt` raises `ValueError` when a table already has a column named `FTE`; the model melts regardless.
- Dedup.Deduplicate: `drop_duplicates(subset=[])` when no key column is present is modelled as every row having the same (empty) key.
