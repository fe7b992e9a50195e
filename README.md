# db_manager: a verified model of its core

db_manager loads broker price CSV files into a per-symbol SQLite database. While it
loads them, it keeps only the candles that lie close to a reference series of news
release times. This project models, in Dafny, the sequential logic inside that
pipeline and proves what that logic promises:

- **The time-window filter** `filter_dataframe` (`alignment.dfy`).
  - Every reference time `r` gives the window `[r - 1 min, r + 1 min]`.
  - Candles whose `Gmt time` does not parse are discarded.
  - Each remaining candle is matched "as of, backward" to the window with the greatest start not after it. It is kept when it is not past that window's end.
  - Timestamps are integers in microseconds, so one minute is `Delta = 60_000_000`.
  - The merge is a single loop over both sorted sequences (`MergeAsOf`), proved against a reference definition (`NearOnly`).
  - The key result is `KeepsIffNear`. All windows have the same width, so the as-of match keeps a time exactly when it lies within one minute of some reference time. Both bounds are inclusive.
  - The `time_window` argument is never read: the half-width is always one minute.
  - If `Gmt time` is missing but `RELEASE_TIME` is present, the frame is returned unchanged. If both are missing, `ValueError` is raised.
- **The writer** `DataFrameChunkWriter.write_to_db` (`writer.dfy`).
  - The class `ChunkWriter` holds the queue still to be read and the database. The database is a map from table name to the chunks appended to it.
  - `WriteToDb` reads items in order and stops at the first sentinel (a `None` chunk). Nothing after the sentinel is read.
  - Each chunk gets at most five write attempts. An oracle `fails(i, k)` says whether attempt `k` on item `i` raises `sqlite3.OperationalError`.
  - A chunk is appended once, at its first successful attempt. After five failures it is dropped silently. The source keeps no count of dropped chunks.
  - `_prepare_chunk_for_db` runs again on every attempt, on the chunk as the previous attempt left it.
    - On the first attempt, `Gmt time` becomes the index.
    - On a retry, `Gmt time` is therefore no longer a column, and a `RELEASE_TIME` column is parsed as well (`RetryAlsoFormatsReleaseTime`).
    - So a chunk with both columns is stored differently depending on how many attempts it took.
- **Table creation** in `DBCreator` (`db_creator.dfy`).
  - Table names and column names are checked against `^[a-zA-Z_][a-zA-Z0-9_]*$`.
    - Python's `re.match` with `$` also accepts a name followed by one newline, and the model reproduces this.
    - `ValidNameIff` states the accepted set exactly, and `TrailingNewlineAccepted` shows `"a\n"` passing.
  - A column type is accepted when its upper-cased form is `TEXT`, `TIMESTAMP`, `REAL` or `INTEGER`.
  - The checks run in the source's order: the table name first, then each column in insertion order, the name before the type. The first offence raises.
  - The `CREATE TABLE IF NOT EXISTS` statement is built as text. `QueryRoundTrip` proves it reads back as the table name and the columns, in order.
- **Naming the database** in main.py (`symbol.dfy`, with Python's `split`/`join` in `strings.dfy`).
  - Only regular files whose name ends in `.csv` are selected. An empty selection raises `IndexError`.
  - The symbol is derived from the first selected file by a chain of splits and joins.
    - `SymbolByScanning` proves the chain equal to a character-level definition: after the last `/`, after the last `\`, before the last `.`, before the first `-`.
    - The lemmas after it follow from that definition.
  - The database path is `./<symbol>.db`.

Some branches of the source repeat an earlier condition and are never taken: database/db_writer.py:30-31 and 124-126. The model gives them no behaviour.

Modules:

| module | file |
|---|---|
| `Wrappers` (Option, Result) | `wrappers.dfy` |
| `DataModel` (column names) | `data_model.dfy` |
| `Sorting` (`sort_values` by an integer key) | `sorting.dfy` |
| `Alignment` | `alignment.dfy` |
| `Writer` | `writer.dfy` |
| `DbCreator` | `db_creator.dfy` |
| `Strings` | `strings.dfy` |
| `SymbolNaming` | `symbol.dfy` |

## Model

| member | source | states |
|---|---|---|
| Alignment.WindowOf | database/db_writer.py:42-43 | a reference time lies in its window, and every window is exactly two minutes wide whatever `time_window` is |
| Alignment.AsOfGreatestStart | database/db_writer.py:45-50 | on windows sorted by start, the backward as-of match is a window with the greatest start not after `t`; there is no match exactly when every start is after `t` |
| Alignment.KeepsIffNear | database/db_writer.py:42-53 | merge plus mask keeps `t` if and only if some reference time `r` has `r - 1 min <= t <= r + 1 min` |
| Alignment.MatchedWindowIsReferenceWindow | database/db_writer.py:45-50 | a matched window is the window of some reference time, and its start is not after `t` |
| Alignment.BeforeEveryWindowDropped | database/db_writer.py:45-53 | a time before every window start has no match and is dropped |
| Alignment.GapDropped | database/db_writer.py:45-53 | a time past some window but near no reference time is matched to a window whose end it has passed, and is dropped |
| Alignment.BoundariesInclusive | database/db_writer.py:52-53 | with a single reference time `r`, `r - 1 min` and `r + 1 min` are kept; one microsecond beyond either is not |
| Alignment.AsOf | database/db_writer.py:45-50 | a match is one of the windows and starts no later than `t`; there is no match exactly when every window starts after `t` |
| Alignment.Keeps | database/db_writer.py:52-53 | a kept time lies inside some window |
| Alignment.Near | database/db_writer.py:14-14 | `t` is near exactly when some position of the reference series holds a time at most one minute away from it |
| Alignment.Parsed | database/db_writer.py:39-40 | after `dropna` every row has a parsed timestamp, and no row is added |
| Alignment.ParsedCount | database/db_writer.py:39-40 | `dropna` keeps each row with a parsed timestamp as often as it occurs and drops every other row |
| Alignment.NearOnly | database/db_writer.py:14-14 | never longer than the input; every row it holds has a parsed time, lies within one minute of a reference time and comes from the input |
| Alignment.NearOnlyOfParsed | database/db_writer.py:39-40 | unparsable rows are dropped, not reported: dropping them first changes nothing in the result |
| Alignment.KeptByAsOfIsNearOnly | database/db_writer.py:45-53 | on parsed rows, what the merge and mask keep is exactly the rows within one minute of a reference time, in order |
| Alignment.NearOnlySorted | database/db_writer.py:46-46 | the kept rows of a time-sorted input are time-sorted |
| Alignment.NearOnlyPermutation | database/db_writer.py:46-46 | sorting the input first does not change the kept rows as a multiset, so the unstable order of equal times does not matter |
| Alignment.NearOnlyCount | database/db_writer.py:52-53 | a row is kept as often as it occurs in the input when it is parsed and near a reference time, and never otherwise |
| Alignment.AlignedSound | database/db_writer.py:52-55 | every returned row has a parsed time, lies within one minute of a reference time, and came from the input |
| Alignment.AlignedComplete | database/db_writer.py:14-14 | every parsed input row within one minute of a reference time is returned, as many times as it occurs |
| Alignment.AlignedSubMultiset | database/db_writer.py:52-55 | the result is a sub-multiset of the input and never longer |
| Alignment.MergeAsOf | database/db_writer.py:45-53 | the merging pass over sorted rows and sorted windows computes exactly what merge and mask keep |
| Alignment.FilterDataframe | database/db_writer.py:12-55 | with `Gmt time`: same columns, result parsed, sorted and the near rows as a multiset; else with `RELEASE_TIME`: the frame unchanged; else `ValueError` with the source's message |
| Sorting.Sort | database/db_writer.py:46-47 | the result is ordered by the key and a permutation of the input |
| Writer.FormatTimeColumn | database/db_writer.py:141-143 | an absent column leaves the chunk unchanged; a present one is marked parsed with the given format and nothing else changes |
| Writer.FormatTimeColumnIdempotent | database/db_writer.py:141-143 | parsing a column twice with one format is parsing it once |
| Writer.SetIndex | database/db_writer.py:123-123 | the column leaves the columns (all others stay) and becomes the index |
| Writer.PrepareChunk | database/db_writer.py:113-128 | afterwards `Gmt time` is never a column and no column is added; the records are untouched; a chunk that had `Gmt time` has it as its index |
| Writer.PrepareTimes | database/db_writer.py:102-104 | after at least one attempt `Gmt time` is not a column; no attempt adds a column or touches the records |
| Writer.PrepareGmtChunk | database/db_writer.py:121-123 | with `Gmt time`: parsed with `%Y-%m-%d %H:%M:%S.%f`, made the index, removed from the columns, nothing else touched |
| Writer.PrepareReleaseChunk | database/db_writer.py:127-128 | without `Gmt time` but with `RELEASE_TIME`: parsed with `%Y.%m.%d %H:%M:%S`, kept as a column, index untouched |
| Writer.PrepareOtherChunk | database/db_writer.py:121-128 | with neither time column the chunk is untouched |
| Writer.PrepareIdempotentWithoutGmt | database/db_writer.py:121-128 | without `Gmt time`, preparing twice is preparing once |
| Writer.PrepareSettles | database/db_writer.py:102-104 | however many attempts run, the chunk stops changing after the second preparation |
| Writer.RetryAlsoFormatsReleaseTime | database/db_writer.py:102-109 | a chunk with both time columns has `RELEASE_TIME` unparsed when written on the first attempt and parsed when written on a retry |
| Writer.FirstSuccess | database/db_writer.py:101-109 | the attempt chosen is below five, succeeds, and every earlier one failed; none is chosen exactly when all five fail |
| Writer.Append | database/db_writer.py:105-105 | `to_sql(..., if_exists='append')`: the table gains the chunk at its end, every other table is unchanged |
| Writer.WriteItem | database/db_writer.py:101-110 | the sentinel writes nothing; only the item's table can change, keeping its chunks as a prefix and gaining at most one; no table disappears |
| Writer.Drain | database/db_writer.py:97-110 | draining never removes a table |
| Writer.DrainOnlyAppends | database/db_writer.py:97-110 | each table keeps what it held as a prefix and gains at most one chunk per item read |
| Writer.SentinelIndex | database/db_writer.py:97-100 | the position of the first `None` chunk: every item before it is a chunk |
| Writer.DrainAppendsInOrder | database/db_writer.py:97-110 | each table ends as it was followed by the successful chunks addressed to it, in queue order |
| Writer.WritesInQueueOrder | database/db_writer.py:97-110 | the writes follow the queue with strictly increasing item positions, so no item is written twice |
| Writer.WritesAreItems | database/db_writer.py:101-110 | each write is its item's chunk under its item's table, prepared once per attempt made |
| Writer.WrittenIff | database/db_writer.py:101-110 | an item is written exactly when it is a chunk and one of its five attempts succeeds |
| Writer.DroppedAfterFiveFailures | database/db_writer.py:101-110 | after five `OperationalError`s the store is unchanged |
| Writer.WrittenOnFirstSuccess | database/db_writer.py:101-106 | a chunk whose attempt `k` is the first success is appended exactly once, prepared `k + 1` times |
| Writer.ChunkWriter.constructor | database/db_writer.py:63-73 | the writer holds the given name, queue and database |
| Writer.ChunkWriter.WriteWithRetry | database/db_writer.py:101-110 | the retry loop leaves the database as `WriteItem` says and does not touch the queue |
| Writer.ChunkWriter.WriteToDb | database/db_writer.py:91-111 | returns `finished` exactly when the queue holds a sentinel; the queue keeps only what follows the sentinel; the database is the drain of the items before it |
| DbCreator.MatchesValidName | database/db_creator.py:10-10 | every ASCII identifier matches the pattern |
| DbCreator.ValidNameIff | database/db_creator.py:10-10 | the pattern accepts exactly the ASCII identifiers and the ASCII identifiers followed by one newline |
| DbCreator.TrailingNewlineAccepted | database/db_creator.py:10-10 | `"a\n"` passes although it is not an identifier |
| DbCreator.LeadingDigitRejected | database/db_creator.py:10-10 | a name starting with a digit is rejected |
| DbCreator.ValidNameHasNoPunctuation | database/db_creator.py:38-40 | an accepted name holds no blank, comma, parenthesis or semicolon |
| DbCreator.Upper | database/db_creator.py:60-60 | upper-casing keeps the length and maps each character on its own |
| DbCreator.ValidType | database/db_creator.py:55-60 | under the ASCII `Upper`, an accepted type has 4, 7 or 9 characters, the lengths of the four accepted names |
| DbCreator.TypeCheckCaseInsensitive | database/db_creator.py:60-60 | two type names that agree under the ASCII `Upper` at every position are accepted or rejected together |
| DbCreator.TypeCheckIgnoresCase | database/db_creator.py:55-60 | `integer` and `Real` are accepted, `VARCHAR` is not |
| DbCreator.ValidTypeIsLetters | database/db_creator.py:55-60 | with `str.upper()` modelled by the ASCII `Upper`, an accepted type is made of ASCII letters only |
| DbCreator.ValidateTableName | database/db_creator.py:38-40 | the name is returned unchanged exactly when it matches; otherwise the error names it and its message is `Invalid table name: <name>` |
| DbCreator.ValidateColumns | database/db_creator.py:57-63 | the columns are returned unchanged exactly when every one passes; an empty list passes |
| DbCreator.Offence | database/db_creator.py:58-61 | a column whose name fails raises `Invalid column name: <name>`; one whose name passes raises `Invalid column type for <name>: <type>` |
| DbCreator.ValidateColumnsFirstOffender | database/db_creator.py:57-61 | a failure reports the first failing column in insertion order, its name checked before its type |
| DbCreator.NewCreator | database/db_creator.py:21-23 | a bad table name fails first; otherwise success exactly when every column passes, with the first offender reported; a success stores `db_name + '.db'` and the validated fields |
| DbCreator.TableNameCheckedFirst | database/db_creator.py:22-23 | an invalid table name is reported even when the columns are invalid too |
| DbCreator.CreateTableQuery | database/db_creator.py:69-71 | the statement starts with `CREATE TABLE IF NOT EXISTS ` and ends with `)` |
| DbCreator.ParseDefsOfJoin | database/db_creator.py:69-69 | the joined column definitions of valid columns read back as those columns, in order |
| DbCreator.QueryRoundTrip | database/db_creator.py:69-71 | the statement of a validated creator reads back as exactly its table name and its columns in insertion order, original spelling kept |
| Strings.Split | main.py:86-86 | `split` gives at least one part and no part holds the separator |
| Strings.SplitJoin | main.py:86-86 | splitting the join of separator-free parts gives the parts back |
| Strings.JoinSplit | main.py:86-86 | joining the parts of a split gives the string back |
| Strings.SplitFirstIsBefore | main.py:86-86 | `split(c)[0]` is the text before the first `c` |
| Strings.SplitLastIsAfterLast | main.py:86-86 | `split(c)[-1]` is the text after the last `c` |
| Strings.JoinDropLastIsBeforeLast | main.py:86-86 | `c.join(split(c)[:-1])` is the text before the last `c` |
| SymbolNaming.BaseName | main.py:86-86 | the base name is a suffix of the path and holds neither `/` nor `\` |
| SymbolNaming.Symbol | main.py:86-86 | the symbol is a prefix of the base name and holds no `-` |
| SymbolNaming.SymbolByScanning | main.py:86-86 | the symbol is the text after the last `/`, then after the last `\`, then before the last `.`, then before the first `-` |
| SymbolNaming.SymbolHasNoSeparator | main.py:86-86 | the symbol never contains `/`, `\` or `-` |
| SymbolNaming.NoExtensionEmptySymbol | main.py:86-86 | a base name without `.` gives the empty symbol |
| SymbolNaming.SymbolOfPlainName | main.py:86-86 | a plain name `p-q.ext` gives the symbol `p`, even when `p` holds dots |
| SymbolNaming.ExampleSymbol | main.py:86-86 | `a.b-c.csv` gives `a.b` |
| SymbolNaming.CsvFiles | main.py:80-84 | a file is selected exactly when it is in the listing, a regular file and its name ends in `.csv` |
| SymbolNaming.CsvFilesFirst | main.py:80-86 | the first selected file is the first regular `.csv` file of the listing |
| SymbolNaming.DatabasePath | main.py:90-90 | the path is `./`, then the symbol, then `.db`, and nothing else |
| SymbolNaming.SymbolDatabase | main.py:80-90 | `IndexError` exactly when no file is selected; otherwise the path of the symbol of the first regular `.csv` file of the listing |
| SymbolNaming.DatabaseInWorkingDirectory | main.py:90-90 | the path is `./`, a name without `/`, then `.db` |

## Left out

- Timestamp parsing (`pd.to_datetime` with a format and `errors='coerce'`) is not modelled. A candle carries the result of parsing as an `Option<int>`, and the reference series is taken as already parsed. In `Writer`, parsing a column only records the format used on it.
- `filter_dataframe` also adds `start_time`/`end_time` columns to `reference_df` in place. The model keeps the windows as a separate value and does not modify the reference.
- `filter_dataframe` rewrites `reference_df['Gmt time']` in place with its parsed value (database/db_writer.py:23). The model takes the reference series as already parsed, so the caller's frame is not shown changing.
- `filter_dataframe` rewrites `target_df[candle_time]` in place before `dropna` (database/db_writer.py:39). The model returns a new frame, so the change seen by the caller's `target_df` is not modelled.
- The `ChunkWriter` constructor takes the database contents instead of `reference_df`. `self.news` is read only by `process_file`, which is not modelled, so it is not a field (database/db_writer.py:63-73).
- Pandas' sort is modelled by an insertion sort. No property depends on the order of equal timestamps, which pandas does not fix either.
- `process_file` and CSV reading, including the `FileNotFoundError` message, are file I/O and are not modelled.
- Concurrency between producers and the writer through the multiprocessing queue is not modelled. The queue is the sequence of items in the order the writer reads them.
- `WriteToDb` returning with `finished` false on an empty queue stands for `queue.get()` blocking forever. The source never returns in that case.
- The sqlite connection, `to_sql` and `cnx.close()` are reduced to appending to a map. A failed attempt is taken to write nothing. `time.sleep` is not modelled.
- `WriteToDb` and `WriteWithRetry`: an attempt that does not fail means `_prepare_chunk_for_db` and `to_sql` returned. The oracle offers only that or `sqlite3.OperationalError`. Any other exception, such as `sqlite3.IntegrityError` from `to_sql`, leaves both loops and `write_to_db` at once, skips `cnx.close()` and leaves the rest of the queue unread. That path is not modelled, so the contracts on `finished` and on the store hold only when no such exception is raised.
- `FilterDataframe` assumes that parsing `reference_df['Gmt time']` with pandas' default `errors='raise'` succeeded (database/db_writer.py:23). That parse runs before every branch, so an unparsable reference time raises ahead of the `RELEASE_TIME` return and the `ValueError`. This failure is not modelled.
- The chunk that `_prepare_chunk_for_db` mutates in place is a value here. The retry loop reassigns it, so aliasing of the chunk is not modelled.
- `DBConnector`, running the `CREATE TABLE` statement (database/db_creator.py:73-76), its `print` and its sleep are not modelled.
- The columns dictionary of `DBCreator` is modelled by its items in insertion order. Duplicate names, which a dictionary cannot hold, are allowed by the model and change none of its properties.
- DbCreator.Upper: models `str.upper()` on ASCII only. Non-ASCII characters that Python upper-cases into an accepted type, such as `ı` or `ſ` giving `I` or `S`, are left unchanged here.
- Everything in main.py except the `.csv` selection, the symbol and the database path is not modelled: the tkinter dialogs, `os.listdir` and `os.path.isfile` (passed in as the listing and a predicate), directory creation and removal, and logging.
- `DataExtractor` and `sort_table_on_time`, imported at main.py:14, are defined in no file shown and are not part of this model.
- `load_data` in data_models/model.py is a call into pandas. The model uses only the `Gmt time` constant from that file.
