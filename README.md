# SecureCheck core in Dafny

SecureCheck is a police-post ledger. Two ingestion scripts read a CSV of traffic stops and clean
it with pandas; process_data.py then loads the cleaned frame into the SQLite table
`traffic_stops`, while data_cleaning.py only cleans it and prints the result. A dashboard then appends one stop
per submitted form, runs three analytics reports and lists the latest fifty logs, optionally
filtered by a search term. This project models these parts:

- `frames.dfy` (`Frames`): a DataFrame as an ordered column list and rows mapping a column to a
  cell that may be null. It holds the pandas operations the scripts use: `dropna(axis=1,
  how='all')`, `drop(errors='ignore')`, `fillna` and `astype(bool)`.
- `normalizer.dfy` (`Normalizer`): the `preprocess_data` pipeline that both scripts share. The
  cleaned frame is described by the function `Preprocessed`, and the method `Preprocess` (with
  the loop over the three flag columns) is proved equal to it. When a run succeeds, what the output is,
  which error a failed run reports first (the KeyError order of the lookups, then the dates
  before the times) and the shape of the output are all proved. The date and time parsers are parameters.
- `time_format.dfy` (`TimeFormat`): `strptime` with `%H:%M:%S`, the one concrete parser. It is
  proved against a formatter, as a round trip in both directions.
- `data_cleaning.dfy` (`DataCleaning`) and `process_data.dfy` (`ProcessData`): the two scripts.
  The first uses the fixed time format. The second uses an inferred parser, creates the table and
  bulk-loads the frame with its row position as `stop_id`.
- `stop_store.dfy` (`StopStore`): the table as a class, `Database`. Its invariant covers distinct
  primary keys and the seven NOT NULL columns. An insert stores a whole frame or nothing, and the
  first error is named in the order SQLite meets it.
- `analytics.dfy` (`Analytics`): the three queries of `ANALYTICS_QUERIES`, as functions of the
  stored rows, with lemmas stating what each result means.
- `search.dfy` (`Search`): the latest-logs query with its optional WHERE clause, its two-column
  ORDER BY and its LIMIT.
- `app.dfy` (`App`): the record built from the form, and `log_new_stop`.
- `sequences.dfy`, `wrappers.dfy` and `columns.dfy`: the generic sequence operations behind the
  SQL clauses, `Option`/`Result`, and the column names.

Two facts about the code that a reader might not expect:

- The schema makes seven columns NOT NULL, `stop_date` and `stop_time` among them.
- Preprocessing only fills null `search_type` cells with "None Conducted"; only the form derives
  `search_type` from whether a search was conducted.

## Model

| member | source | states |
|---|---|---|
| Frames.DropAllNullColumns | process_data.py:62 | removes exactly the columns whose every cell is null; keeps the other columns in order, every cell, and the row count |
| Frames.DropColumn | process_data.py:65 | removes the named column and no other; every other cell and the row count are kept |
| Frames.DropAbsentColumn | process_data.py:65 | with `errors='ignore'`, dropping a column the frame lacks leaves the frame as it is |
| Frames.FillNull | process_data.py:68-69 | the nulls of the column become the literal, its values stay, no other column changes |
| Frames.FillNullIdempotent | process_data.py:68-69 | filling twice is filling once |
| Frames.Truthy | process_data.py:73 | a cell is false exactly when it is False, 0 or the empty text; a null (NaN) is true |
| Frames.CoerceBool | process_data.py:72-73 | the column holds only booleans, each the truthiness of the old cell; no other column changes |
| Frames.CoerceBoolOnBooleans | process_data.py:72-73 | coercing a column of booleans is the identity |
| Frames.Project | process_data.py:48 | a stored row carries exactly the table's columns that the frame names; the others read as NULL |
| Normalizer.Pruned | process_data.py:62-65 | the columns are the input's minus the all-null ones and `driver_age_raw`, in order; same rows and cells |
| Normalizer.Filled | process_data.py:68-69 | fails with a KeyError on a missing `search_type` or `vehicle_number`; otherwise fills their nulls with "None Conducted" and "Unknown" and nothing else |
| Normalizer.CoercedAll | process_data.py:72-73 | fails exactly when a flag column is missing; otherwise each flag cell is the truthiness of the old cell, and other cells are kept |
| Normalizer.CoerceFlags | process_data.py:72-73 | the loop over the flag columns computes `CoercedAll` |
| Normalizer.FirstUnparsable | process_data.py:76-77 | the first row whose cell the parser rejects; every earlier row parses |
| Normalizer.ParseColumn | process_data.py:76-77 | succeeds exactly when every cell parses; a null stays null, a value becomes its parse; an error names the row and the raw value |
| Normalizer.Stamped | process_data.py:76-77 | `stop_date`, then `stop_time`, must exist and parse; other columns are untouched |
| Normalizer.Preprocess | process_data.py:52-79 | the method computes `Preprocessed`: pruning, fills, coercion loop, then parsing |
| Normalizer.PreprocessedOutput | process_data.py:52-79 | a successful run keeps the input's rows one for one, drops the all-null columns and `driver_age_raw`, and rewrites only the needed columns |
| Normalizer.PreprocessedSucceeds | process_data.py:52-79 | a run succeeds exactly when every needed column survives pruning and every non-null date and time cell parses |
| Normalizer.PreprocessedFails | process_data.py:52-79 | a failure names a needed column that was missing or all null, or a date or time cell its parser rejects |
| Normalizer.Preprocessed | process_data.py:52-80 | a successful run keeps the row count and the columns that survive pruning, in order |
| Normalizer.PreprocessedFirstMissing | process_data.py:68-76 | a KeyError names the first column, in the order search_type, vehicle_number, the three flags, stop_date, that is missing or all null |
| Normalizer.PreprocessedFirstParseError | process_data.py:76-77 | once those columns are present: the first rejected date, by row and value; else a missing stop_time; else the first rejected time |
| Normalizer.CoercedFirstMissing | process_data.py:72-73 | the flag loop raises its KeyError at the first flag the frame lacks |
| Normalizer.StampedParseOrder | process_data.py:76-77 | parsing reports the first rejected date, else a missing stop_time, else the first rejected time |
| Normalizer.FirstUnparsableSameCells | process_data.py:76-77 | the first rejected row depends only on the cells of the parsed column |
| Normalizer.AllNullNeededColumnFails | process_data.py:62-77 | a needed column that is null throughout is pruned and then missed, so the run fails |
| Normalizer.PrunedNeeded | process_data.py:62-65 | a needed column survives pruning exactly when the input has a non-null cell in it, and keeps its cells |
| Normalizer.ReachesStamping | process_data.py:68-73 | the fills and coercions succeed exactly when their five columns are present |
| TimeFormat.Split | data_cleaning.py:33 | the colon-separated fields of a text, none containing a colon, joined back to the text |
| TimeFormat.Split2 | data_cleaning.py:33 | two colon-free fields joined by a colon split into exactly those fields |
| TimeFormat.Split3 | data_cleaning.py:33 | three colon-free fields joined by colons split into exactly those fields |
| TimeFormat.ParseHms | data_cleaning.py:33 | a parsed time is a valid time of day, read from exactly three fields |
| TimeFormat.TwoDigits | data_cleaning.py:33 | two characters without a colon that read back as the number |
| TimeFormat.FormatHms | data_cleaning.py:33 | eight characters |
| TimeFormat.ParseFormatted | data_cleaning.py:33 | parsing a formatted valid time gives the time back |
| TimeFormat.FormattedParse | data_cleaning.py:33 | an eight-character text that parses is the formatting of its parse |
| TimeFormat.ParseFields | data_cleaning.py:33 | over three colon-free fields, the parse succeeds exactly for one- or two-digit fields in range, and gives their values |
| TimeFormat.SingleDigitFields | data_cleaning.py:33 | single-digit fields are accepted, as `%H`, `%M` and `%S` allow |
| TimeFormat.HourOutOfRange | data_cleaning.py:33 | hour 24 is rejected |
| TimeFormat.FractionRejected | data_cleaning.py:33 | trailing fractional seconds do not match the format |
| DataCleaning.TimeCell | data_cleaning.py:33 | only a text cell is parsed, with the fixed format |
| DataCleaning.PreprocessData | data_cleaning.py:4-36 | the script's pipeline is the shared one with the fixed time format |
| DataCleaning.UnmatchedTimeFails | data_cleaning.py:33 | a `stop_time` that does not match the format makes the run fail |
| DataCleaning.TimesReadExactly | data_cleaning.py:33 | after a successful run a null time stays null, and every other time cell was text holding the time it spells |
| StopStore.FirstUnknown | process_data.py:48 | none exactly when every frame column is a table column; otherwise the first frame column the table lacks, every earlier one being known |
| StopStore.AdmissibleRequired | process_data.py:20-36 | a row meets the constraints exactly when each of the seven NOT NULL columns holds a value |
| StopStore.Loaded | process_data.py:48 | the frame's rows in order, one for one, with the ids base, base + 1, ..., each holding the frame's cells in the table's columns |
| StopStore.RowError | process_data.py:20-36 | fails exactly on an inadmissible row, naming the first NOT NULL column in declaration order that is NULL |
| StopStore.RowFault | process_data.py:20-36 | a row is accepted exactly when it is admissible and its id is free; otherwise a NULL column or the taken id is named |
| StopStore.RowsError | process_data.py:48 | none exactly when every remaining row is accepted; otherwise a NULL NOT NULL column or a taken id of one of them |
| StopStore.RowsErrorFirst | process_data.py:48 | the error is the fault of the first remaining row that has one, every earlier row being accepted |
| StopStore.RowsErrorFirstSome | process_data.py:48 | the row-by-row check equals the first fault in the sequence of row faults |
| StopStore.Faults | process_data.py:20-36 | one fault per row of the insert, in row order |
| StopStore.BatchError | process_data.py:48 | a frame without rows never fails; otherwise an insert fails exactly on an unknown column or a failing row, and says which |
| StopStore.BatchAccepts | process_data.py:48 | an insert succeeds exactly when it has no rows, or when every column exists, every row is admissible and no new id is in use |
| StopStore.BatchErrorNull | process_data.py:20-36 | a NOT NULL failure names a column that is NULL in some row of the insert |
| StopStore.NextId | app.py:49 | the id SQLite gives a row without one: above every id in use, 1 in an empty table |
| StopStore.LoadedIds | process_data.py:48 | a bulk load gives the ids base to base + n - 1, all different |
| StopStore.AppendKeepsIdsDistinct | process_data.py:21 | appending fresh, distinct ids keeps the primary key unique |
| StopStore.Database.constructor | process_data.py:82-84 | a fresh database file has no table and no rows |
| StopStore.Database.CreateTableIfNotExists | process_data.py:19-42 | afterwards the table exists with the rows as before; on an existing table it changes nothing |
| StopStore.Database.InsertFrame | process_data.py:48 | stores every row with its id, or nothing, and returns the error `BatchError` names |
| StopStore.Database.AppendFrame | app.py:49 | stores the rows with the next ids, or nothing; never fails on the primary key |
| ProcessData.CreateAndLoadDatabase | process_data.py:11-49 | the table exists afterwards; the frame is appended with ids 0, 1, ... or the table is unchanged |
| ProcessData.InitializeDatabase | process_data.py:81-97 | a failed preprocessing leaves no table; otherwise the fresh table holds exactly the loaded frame, or nothing if the load failed |
| ProcessData.FreshLoad | process_data.py:48 | the first load succeeds exactly when the frame is empty, or when the columns are known and every row is admissible; its ids are 0 to n - 1 |
| ProcessData.PreprocessedFlagsFilled | process_data.py:72-73 | after preprocessing, the three flag columns hold a value in every row |
| ProcessData.PreprocessedLoadNulls | process_data.py:20-36 | a NOT NULL failure on loading a preprocessed frame is a date, time, country or violation that was already null in the input |
| Sequences.Distinct | app.py:117 | the distinct elements, each once |
| Sequences.CountIf | app.py:114 | at most the length; at least one exactly when some element satisfies the condition |
| Sequences.Filter | app.py:182 | the subsequence of the input made of exactly the elements that satisfy the condition: each one kept, in order, with as many copies as the input has |
| Sequences.FilterSubMultiset | app.py:182 | a WHERE clause keeps each row at most as often as it is stored |
| Sequences.SubMultisetKeepsIds | app.py:182-184 | selecting rows without repeating any keeps their ids pairwise different |
| Sequences.SortDesc | app.py:118 | a permutation, ordered from the largest key |
| Sequences.Take | app.py:119 | the first n elements, or the whole input when it has at most n |
| Sequences.TakeSortedOmits | app.py:118-119 | an element LIMIT leaves out means that the limit was reached by elements ranked at least as high |
| Sequences.HasInfix | app.py:182 | true exactly when the term occurs contiguously |
| Sequences.FirstSomeIsFirst | process_data.py:48 | the first value in a sequence of optional faults sits at an index before which every entry is None |
| Sequences.ReorderedKeys | app.py:131 | reordering one row per distinct key keeps exactly those keys, each once |
| Analytics.GroupKeys | app.py:117 | the groups of GROUP BY: each key of some row, once |
| Analytics.GroupSize | app.py:129 | `COUNT(*)` of a group is positive exactly when some row is in it |
| Analytics.GroupHits | app.py:129 | the number of flagged rows of a group is at most its size |
| Analytics.Percentage | app.py:129 | `hits * 100 / total`, between 0 and 100 when hits <= total |
| Analytics.DrugVehicles | app.py:116 | a vehicle number appears exactly when it has a drug-related stop |
| Analytics.IsTrue | app.py:116 | `= TRUE` holds exactly for True and its stored form 1; never for NULL, False or 0 |
| Analytics.TopDrugVehicles | app.py:113-119 | at most ten rows |
| Analytics.TopDrugVehiclesCounts | app.py:113-119 | at most ten rows, each count the vehicle's true number of drug-related stops and at least one, counts non-increasing |
| Analytics.TopDrugVehiclesDistinct | app.py:117 | no vehicle is listed twice |
| Analytics.TopDrugVehiclesComplete | app.py:118-119 | a vehicle with a drug-related stop is left out only when ten vehicles with at least as many fill the list |
| Analytics.LabelsDistinct | app.py:123-127 | the four labels of the CASE are different |
| Analytics.AgeGroupOf | app.py:123-128 | an age gets exactly one group: the three closed BETWEEN ranges, else 46+, including NULL |
| Analytics.ArrestRateByAge | app.py:121-132 | a non-empty table gives at least one group |
| Analytics.ArrestRateByAgeRates | app.py:121-132 | every row is an occurring group with its arrest rate, between 0 and 100; rates non-increasing |
| Analytics.ArrestRateByAgeGroups | app.py:131 | exactly the occurring age groups are listed, each once |
| Analytics.GroupKeysOccur | app.py:131 | the groups of GROUP BY are exactly the keys with at least one row |
| Analytics.ViolationRow | app.py:136-140 | the search and arrest rates of a violation, both in [0, 100], and their mean, which lies between them |
| Analytics.ViolationRisk | app.py:134-143 | a non-empty table gives at least one violation |
| Analytics.ViolationRiskRates | app.py:134-143 | every row is an occurring violation with its two rates in [0, 100] and the combined rate between them; combined rates non-increasing |
| Analytics.ViolationRiskGroups | app.py:142 | exactly the occurring violations are listed, each once |
| Search.Contains | app.py:182 | `LIKE '%term%'` holds exactly for a text cell in which the term occurs contiguously; never for NULL |
| Search.Matches | app.py:180-182 | an empty term matches every row; a non-empty one only a row with a country name or a vehicle number |
| Search.DateRank | app.py:184 | NULL and non-dates rank lowest, at 0 |
| Search.TimeRank | app.py:184 | NULL and non-times rank lowest, at 0; valid times rank below 86401 |
| Search.DateRankOrder | app.py:184 | on valid dates the rank is the calendar order |
| Search.TimeRankOrder | app.py:184 | on valid times the rank is the clock order |
| Search.MixedRadix | app.py:184 | a two-digit mixed-radix number compares lexicographically |
| Search.StampKey | app.py:184 | a row without a valid date sorts below every row with one, whatever the times |
| Search.StampKeyOrder | app.py:184 | the sort key orders by date first, then by time within a date |
| Search.SearchRows | app.py:174-184 | at most fifty rows, and no more than the table holds |
| Search.SearchLogs | app.py:174-184 | at most fifty log lines, and no more than the table holds |
| Search.SearchRowsMatch | app.py:174-184 | at most fifty stored rows, each matching; for a non-empty term each contains it in its country name or vehicle number; newest first |
| Search.SearchRowsFromMatching | app.py:174-184 | the listed rows are a sub-multiset of the matching rows: no row is listed more often than it is stored |
| Search.SearchRowsIdsDistinct | app.py:174-184 | with distinct ids in the table, the listed rows have distinct ids |
| Search.SearchRowsComplete | app.py:184 | a matching row is left out only when fifty rows at least as new fill the result |
| Search.EmptyTermNoFilter | app.py:180-182 | an empty term filters nothing: the result has min(50, n) rows |
| Search.LatestLogs | app.py:171-186 | the query built with the conditional WHERE clause returns `SearchLogs` |
| App.RecordFrame | app.py:47 | the one-row frame of a dict: its keys are the columns and its entries the only row |
| App.LogKeysDistinct | app.py:87-103 | the record's keys are pairwise different |
| App.LogValues | app.py:87-103 | fifteen values, none of them null |
| App.NewLog | app.py:87-103 | each key of the record holds its value |
| App.NewLogDerived | app.py:92-102 | `search_type` is "None Conducted" iff no search and "Vehicle Search" iff a search; `violation_raw` equals `violation`; race "Unknown"; gender is the first letter of the choice |
| App.NewLogGender | app.py:92 | the stored gender is M, F or O |
| App.NewLogCopied | app.py:88-100 | the other fields are the form's |
| App.LogKeysColumns | app.py:87-103 | the record's keys are the table's columns, all but `stop_id` |
| App.NewLogIsDict | app.py:87-103 | the record is a dict over its keys |
| App.NewLogNoNull | app.py:87-103 | the record has a value in every column of the table |
| App.NewLogAdmissible | app.py:87-103 | the record's row meets every NOT NULL constraint |
| App.AllCellsAdmissible | process_data.py:20-36 | a row with a value in every column is admissible |
| App.ProjectKeys | app.py:47 | a dict projected onto its own keys is itself |
| App.LogNewStop | app.py:42-52 | exactly one row is appended, with a fresh id, when the columns are known and the row admissible; otherwise the table is unchanged |
| App.SubmitLog | app.py:85-104 | a submitted form is always stored as exactly one new row holding the record, with a fresh id |

## Left out

- The Streamlit page: layout, widgets, charts and the success and error messages. The outcome of a log is returned instead of shown.
- Widget ranges: the form's age (16 to 100) and the option lists. Only the gender box is a closed choice; the other fields are free text.
- The startup check in `get_database_engine`: it becomes the precondition that the table exists.
- `fetch_data` errors: a failed query would show an empty frame, and the model's queries cannot fail.
- CSV reading, deleting the database file, printing and `exit()`: the input frame is a parameter.
- `pd.to_datetime` with an inferred format: the date parser, and the time parser of process_data.py, are function parameters.
- Pandas missing-value strings such as "NaT" in `stop_time`: pandas reads them as missing, but the model rejects them as unmatched text.
- Non-ASCII digits, which `strptime` would accept.
- Chained `fillna(..., inplace=True)`: modelled as updating the frame. Under pandas Copy-on-Write it would not; that is left out.
- Floating-point values. The model has no float cells: a float age read from the CSV, such as 20.0, must be given as `VInt(20)`, which is what the INT column of the table stores; any age that is not a `VInt` falls in 46+. REAL arithmetic is exact `real`, with no rounding.
- SQLite storage classes: dates and times are compared as values, not as stored text, and non-date cells rank lowest.
- Frames.Project: does not model SQLite's type affinity on insert. A text "20" in `driver_age` (an INT column) would be stored as the integer 20 and land in 16-25; the model keeps the text, which falls in 46+.
- StopStore.Loaded: stores cells as the frame holds them, so an integer `vehicle_number` (a VARCHAR column) stays an integer. SQLite would store it as text, which LIKE can match and which GROUP BY merges with the equal text; in the model it matches no search term and forms a group of its own.
- LIKE: the search is a case-sensitive plain substring test. SQLite folds ASCII case and reads `%` and `_` in the term as wildcards. SQL injection through the term is not modelled.
- Ties in ORDER BY: SQLite leaves their order open; the model keeps insertion order. No lemma depends on it.
- `to_sql` creating a missing table, chunking and dtype mapping: the table always exists before an insert here.
- The bulk-load index is taken as the row position, as it is for a frame freshly read from CSV with no rows dropped.
- Rowid exhaustion past the largest 64-bit id.
- Microseconds in times: the form's time input and the parsers produce whole seconds only.
- The `__main__` block of data_cleaning.py: it only prints.
