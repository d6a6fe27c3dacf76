# File integrity monitor and security-log analyzer, modelled in Dafny

The system keeps a store of SHA-256 digests of the files under a watch
folder. It checks the folder against that store, writes what it finds to a
security log, and analyzes that log afterwards. This project models the
core of that system and proves properties of the model:

- **`FileIntegrityMonitor`** (file_integrity_monitor.py) is a class. A
  check or a baseline run changes the in-memory hash store, the store file
  and the security log in place.
  - `integrity_spec.dfy` states the check and the baseline as folds over
    the directory walk, and proves their properties.
  - `integrity_monitor.dfy` holds the class. Its methods are proved to
    compute exactly those folds and to write exactly the events the folds
    describe.
- **`LogAnalyzer`** (log_analyzer.py) parses the log file into entries
  with a loop (`log_parser.dfy`). Its queries are pure filters and counts
  over those entries (`log_stats.dfy`).
- `log_round_trip.dfy` proves that a line `_log` writes is read back by
  `_parse_logs` with the same instant, level and text, provided the event
  is `Writable`: its text after `LEVEL: ` is not empty, does not end in
  whitespace, and holds no line break in the message or the file name.
  Other lines may be dropped (`LogRoundTrip.EmptyMessageDropped`), read
  back with their trailing whitespace trimmed, or broken apart at a line
  break.

Supporting modules:

- `strings.dfy`: Python's `str.strip`, the `in` substring test, decimal
  digits.
- `clock.dfy`: `strftime`/`strptime` on `%Y-%m-%d %H:%M:%S`, and
  `datetime` ordering.
- `event_log.dfy`: the log event and its line grammar.
- `seqs.dfy`: `Init`/`Last` of a sequence, and sequences without repeats.
- `wrappers.dfy`: the `Option` type for Python's `None`.

The inputs the code gets from the operating system are parameters:

- **The recursive walk** of the watch folder (`rglob` plus `is_file`) is a
  sequence of `Observation`s. Each holds the relative path, the digest or
  the read error, and the size and mtime.
- **The clock** is one `Instant` per call.
- **The store file** is a `StoreFile` value: absent, unloadable, or a saved
  store.
- **The security log** is a ghost sequence of `Event`s on the monitor. The
  file the analyzer reads is `LogFile(log)`: one line per event, each ending
  in a newline.

Four behaviours of the code a reader may not expect:

- **Unreadable files.** An unreadable file is added to `current_files`
  before its digest is taken (file_integrity_monitor.py:134 and :136-138).
  So it is never reported as deleted, and its old record stays
  (`IntegritySpec.UnreadableKept`).
- **Corrupted files.** A corrupted file gets a new `hash` and `modified`
  only. Its `size` and `created` go stale.
- **Re-baseline.** `initialize_baseline` never clears the store. It is an
  overwrite of the readable files, not a full rebuild, so stale keys survive
  it (`IntegritySpec.BaselineKeys`, `IntegritySpec.BaselineUntouched`).
- **Named files in the log.** The log reader has no separate subject path.
  The message of an event that named a file reads back as
  `File "<name>" <message>` (`LogRoundTrip.NamedFileMessage`).

## Model

| member | source | states |
|---|---|---|
| Strings.LStripSpec | log_analyzer.py:16 | `lstrip` removes exactly the leading whitespace (Python's `isspace` set), and the rest starts with non-whitespace |
| Strings.RStripSpec | log_analyzer.py:16 | `rstrip` removes exactly the trailing whitespace, and the rest ends with non-whitespace |
| Strings.StripUnpadded | log_analyzer.py:28 | a text that neither starts nor ends with whitespace is its own `strip()` |
| Strings.RStripPadded | log_analyzer.py:16 | whitespace appended to a text is all removed by `rstrip()`, whatever the text |
| Strings.FindPair | log_analyzer.py:16 | finds the first position at or after `from` of a two-character separator, or reports that there is none |
| Strings.Contains | log_analyzer.py:43-46 | Python's `p in s`: true exactly when `p` occurs at some position of `s` |
| Strings.BeforeNewlineSpec | log_analyzer.py:16 | what the regular expression's `.` can consume is the longest prefix without a newline |
| Clock.Format | file_integrity_monitor.py:58 | `strftime("%Y-%m-%d %H:%M:%S")` gives 19 characters |
| Clock.FormatThenParse | log_analyzer.py:20 | `strptime` reads back every instant `strftime` writes |
| Clock.ParseThenFormat | log_analyzer.py:20 | every text the modelled (zero-padded) `strptime` accepts is exactly the formatted form of the instant it yields |
| IntegritySpec.PathsMembers | file_integrity_monitor.py:131-138 | `current_files` holds exactly the walked paths; the hashed paths are exactly the walked paths whose digest succeeded |
| IntegritySpec.HashedPathsAreCurrent | file_integrity_monitor.py:133-138 | every hashed path is a current file |
| IntegritySpec.ForwardKeys | file_integrity_monitor.py:131-168 | after the forward pass the store's keys are the old keys plus the hashed current paths |
| IntegritySpec.ForwardUntouched | file_integrity_monitor.py:136-138 | the forward pass neither adds, removes nor changes the record of a path that was not hashed |
| IntegritySpec.MissingAreStaleKeys | file_integrity_monitor.py:170-179 | the deletion pass removes exactly the old keys outside `current_files`; `deleted` is the size of that set; afterwards every key is a current file |
| IntegritySpec.TallyCountsHashed | file_integrity_monitor.py:131-168 | `safe + corrupted + new` equals the number of current files whose digest succeeded |
| IntegritySpec.UnreadableKept | file_integrity_monitor.py:134-138 | a current file that could not be hashed is not reported deleted; it keeps its old record, and it is not added if it had none |
| IntegritySpec.ForwardRecord | file_integrity_monitor.py:140-168 | after the forward pass each hashed current file holds the record `Expected` gives: new, changed or left as it was |
| IntegritySpec.CheckRecord | file_integrity_monitor.py:140-168 | after the check each hashed file's stored hash is its current digest; a new file's record is fresh, with `created = now`; a changed file keeps `size` and `created`; a safe file keeps its whole record |
| IntegritySpec.ForwardStable | file_integrity_monitor.py:154-160 | when every hashed file matches its stored digest, the forward pass changes nothing and counts all of them safe |
| IntegritySpec.CheckStable | file_integrity_monitor.py:121-192 | a check of a matching store that has no stale keys leaves the store unchanged and reports only safe files |
| IntegritySpec.CheckIdempotent | file_integrity_monitor.py:121-192 | a second check on the same walk leaves the store as the first check left it, with `corrupted = new = deleted = 0` and `safe` = the number of hashed files |
| IntegritySpec.BaselineOverrides | file_integrity_monitor.py:103-117 | the baseline overwrites the old store with a fresh record for each hashed file and keeps every other key |
| IntegritySpec.BaselineKeys | file_integrity_monitor.py:103-117 | keys after the baseline are the old keys plus the hashed paths, so keys-after ⊇ keys-before |
| IntegritySpec.BaselineUntouched | file_integrity_monitor.py:103-117 | a stale key that is not re-hashed keeps its record through a baseline |
| IntegritySpec.BaselineRecord | file_integrity_monitor.py:105-115 | each hashed file's record carries its digest, size and mtime, and `created = now` |
| IntegritySpec.BaselineTwice | file_integrity_monitor.py:98-119 | a second baseline over the same walk matches a single baseline at the later instant: hash and size are unchanged, and `created` is refreshed |
| IntegritySpec.CheckAfterBaseline | file_integrity_monitor.py:98-192 | a check right after a baseline over the same walk reports every hashed file safe; the deleted keys are exactly the stale keys the baseline kept, the old keys outside the walk |
| IntegritySpec.ForwardEventAt | file_integrity_monitor.py:131-168 | the forward pass logs one event per walked file, in walk order, each judged against the store as it stood at that point |
| IntegritySpec.ForwardEventOld | file_integrity_monitor.py:131-163 | when each file is walked once, file `k`'s event is judged against the store the check started from, so a hashed path the old store lacks gets the `detected (Unknown file)` ALERT naming it (an unreadable one gets the digest-error WARNING instead) |
| IntegritySpec.ForwardEventsLength | file_integrity_monitor.py:131-168 | the forward pass logs exactly one event per walked file |
| IntegritySpec.CheckEventReports | file_integrity_monitor.py:136-163 | a new file becomes the ALERT `detected (Unknown file)` naming it, a changed one the WARNING `integrity failed!`, a safe one the INFO `verified OK`; an unreadable one becomes the digest-error WARNING, which names no file; each level occurs for exactly its verdict |
| IntegrityMonitor.FileIntegrityMonitor.constructor | file_integrity_monitor.py:11-21 | starts from an empty store and then loads the store file, logging one load event |
| IntegrityMonitor.FileIntegrityMonitor.Log | file_integrity_monitor.py:56-73 | appends exactly one event to the log |
| IntegrityMonitor.FileIntegrityMonitor.LoadHashDb | file_integrity_monitor.py:23-33 | a saved store replaces the store in memory; an absent or unloadable file leaves it as it was; each of the three cases logs its own message |
| IntegrityMonitor.FileIntegrityMonitor.SaveHashDb | file_integrity_monitor.py:35-42 | the store file becomes the whole store, and the saved count is logged |
| IntegrityMonitor.FileIntegrityMonitor.CalculateHash | file_integrity_monitor.py:44-54 | returns the digest, or `None` after logging a WARNING with the full path and the reason |
| IntegrityMonitor.FileIntegrityMonitor.InitializeBaseline | file_integrity_monitor.py:98-119 | the store becomes `Baseline` of the old store; returns the number of hashed files; saves once; logs start, per-file events, save and the closing count, in that order |
| IntegrityMonitor.FileIntegrityMonitor.CheckFile | file_integrity_monitor.py:136-168 | one walked file: the store becomes `Step`, the counter of its verdict goes up by one (none for an unreadable file), and exactly its `CheckEvent` is logged |
| IntegrityMonitor.FileIntegrityMonitor.ForwardPass | file_integrity_monitor.py:125-168 | the store becomes `Forward`; the three counters are `Tally`; `current_files` is every walked path; the log gets the forward events |
| IntegrityMonitor.FileIntegrityMonitor.DeletionPass | file_integrity_monitor.py:170-179 | removes exactly the keys outside `current_files`, counts them, and logs one `deleted (File missing)` ALERT for each, once each |
| IntegrityMonitor.FileIntegrityMonitor.DeleteFile | file_integrity_monitor.py:176-179 | one missing key is logged as `deleted (File missing)` and removed, and nothing else changes |
| IntegrityMonitor.FileIntegrityMonitor.CheckIntegrity | file_integrity_monitor.py:121-192 | the store becomes `CheckStore` and the result is `CheckSummary`; the store is saved once; the log is start, forward events, deletion ALERTs, save, then the summary carrying the four counts |
| IntegrityMonitor.SaveThenReload | file_integrity_monitor.py:23-42 | saving the store and loading it into a new monitor gives back the same store |
| LogParser.Split | log_analyzer.py:16 | whatever the splitter returns is a decomposition `[ts] level: msg` of the text, with the groups the lazy regular expression picks |
| LogParser.SplitComplete | log_analyzer.py:16 | the splitter finds every decomposition that fits the grammar, with those groups |
| LogParser.SplitTotal | log_analyzer.py:16 | the splitter, which is given the newline-free text the regular expression can consume, matches every text of the form `[a] b: c`, whatever `a`, `b` and `c` hold, as the regular expression does |
| LogParser.ParseLineGrammar | log_analyzer.py:16-29 | a line gives an entry exactly when its stripped text fits the grammar; the entry has that level and message, the stripped line as `raw`, and `None` for a timestamp that does not parse |
| LogParser.WellFormedLine | log_analyzer.py:16-29 | a line `[ts] level: msg` that fits the grammar, holds no newline and does not end in whitespace reads back with those three groups |
| LogParser.ParseAllConcat | log_analyzer.py:15-29 | parsing goes line by line, in order: the entries of two stretches of a file are those of each |
| LogParser.MalformedLineDropped | log_analyzer.py:15-29 | a line that does not match is dropped and does not disturb its neighbours |
| LogParser.ParseAllFromLines | log_analyzer.py:15-29 | every entry comes from some line, and there are no more entries than lines |
| LogParser.LogAnalyzer.constructor | log_analyzer.py:6-9 | the analyzer holds the entries of the log file, or none when the file is missing |
| LogParser.LogAnalyzer.ParseLogs | log_analyzer.py:11-33 | appends the entry of each matching line, in line order |
| LogParser.LogAnalyzer.AddLine | log_analyzer.py:16-29 | one line of the file: a matching line appends exactly its entry, any other line appends nothing |
| LogStats.Filter | log_analyzer.py:109 | a comprehension keeps exactly the elements that pass the test, and no more of them than there were |
| LogStats.FilterConcat | log_analyzer.py:109 | a comprehension keeps the source's order |
| LogStats.FilterEither | log_analyzer.py:45-46 | an `or` count counts each entry once: it equals the two single counts minus the count of both, and is at least each of them |
| LogStats.FilterNone | log_analyzer.py:49 | nothing is kept when no element passes |
| LogStats.GetLogsByLevelSpec | log_analyzer.py:107-109 | `get_logs_by_level` returns, in order, exactly the entries of that level |
| LogStats.GetLogsByDateRangeSpec | log_analyzer.py:111-114 | `get_logs_by_date_range` returns, in order, exactly the entries with a timestamp `t` such that `start <= t <= end`; an entry whose timestamp is `None` is never returned |
| LogStats.LastAnomalyIsLatest | log_analyzer.py:49-50 | `last_anomaly` is the timestamp of the last WARNING or ALERT entry in log order, and `None` when there is none: a `Some` result is that timestamp, and the last anomaly's timestamp (`None` when it did not parse) is always the result |
| LogStats.LastAnomalyOfLast | log_analyzer.py:49-50 | when entry `k` is an anomaly and none follows it, `last_anomaly` is the timestamp of entry `k` |
| LogStats.Reverse | log_analyzer.py:100 | `reversed` gives the same elements in the opposite order |
| LogStats.LastFiveReversed | log_analyzer.py:97-100 | `reversed(a[-5:])` is the last `min(5, len(a))` elements, newest first |
| LogStats.RecentAnomaliesSpec | log_analyzer.py:96-100 | the recent anomalies are the last (at most) five WARNING or ALERT entries, newest first |
| LogStats.SumValuesRemove | log_analyzer.py:40 | the sum of a counter does not depend on the order its keys are taken in |
| LogStats.SumValuesBump | log_analyzer.py:40 | counting one more entry adds one to the counter's sum |
| LogStats.LevelCountsKeys | log_analyzer.py:40 | the level counter's keys are exactly the levels that occur |
| LogStats.LevelCountsValues | log_analyzer.py:40 | each level's count is the number of entries of that level |
| LogStats.LevelCountsSum | log_analyzer.py:40 | the level counts sum to the number of entries |
| LogStats.GetStatistics | log_analyzer.py:35-61 | `None` exactly when there are no entries; otherwise `total_logs` is the number of entries, and each file counter and `anomaly_count` is at most that |
| LogStats.StatisticsSpec | log_analyzer.py:40-60 | the level counts sum to `total_logs`; an entry that mentions both `Unknown file` and `detected` counts once in `new_files`; `anomaly_count` is the number of WARNING entries plus the number of ALERT entries |
| LogStats.PrintAllRaises | log_analyzer.py:100-101 | the printing loop, as written, completes exactly when every entry has a timestamp, and then prints one line per entry |
| LogStats.RecentReportRaises | log_analyzer.py:96-101 | the report, as written, raises exactly when one of the last five anomalies has no parsed timestamp |
| LogStats.GarbledTimestampText | log_analyzer.py:19-22 | a timestamp text that `strptime` rejects can stand in a line that matches |
| LogStats.ReportRaisesOnUnparsedTimestamp | log_analyzer.py:96-101 | a log file of one WARNING line whose timestamp does not parse has statistics, yet its report raises |
| LogStats.RecentReportSpec | log_analyzer.py:96-103 | the corrected report prints one line per recent anomaly, newest first; each line is the one the written code prints wherever that code does not raise |
| LogRoundTrip.FormatCharacters | file_integrity_monitor.py:58 | a formatted instant holds only digits, `-`, space and `:` |
| LogRoundTrip.LineGrammar | file_integrity_monitor.py:58-63 | a written line fits the reader's grammar, with the formatted instant, the level name and the body as its three groups |
| LogRoundTrip.LineRoundTrip | log_analyzer.py:16-29 | the line of a `Writable` event (its body, the text after `LEVEL: `, is non-empty, does not end in whitespace and holds no `\n` or `\r`) reads back with the same instant, the level name, the body as its message, and the line as `raw` |
| LogRoundTrip.NamedFileMessage | file_integrity_monitor.py:60-63 | the line of a `Writable` event that named a file (non-empty body not ending in whitespace, no `\n` or `\r` in the message or file name) is read back with the event's level and the message `File "<name>" <message>` |
| LogRoundTrip.LogRoundTripAll | log_analyzer.py:15-29 | for a log of `Writable` events, reading the whole log file back gives one entry per event, in the order written |
| LogRoundTrip.NoMessageNoMatch | log_analyzer.py:16 | when `ts` holds no `]` and `level` no space, `[ts] level:` with nothing after the colon does not match |
| LogRoundTrip.EmptyMessageDropped | file_integrity_monitor.py:63 | an event with an empty message and no file is written, but `strip()` removes the space after `LEVEL:`, so the reader drops the line |
| LogRoundTrip.TrailingSpaceTrimmed | file_integrity_monitor.py:33 | a `Writable` event whose message gets trailing whitespace appended, as `Error loading hash database: {str(e)}` does when `str(e)` is empty, is no longer `Writable`, yet its line reads back as the entry of the event without that whitespace: `strip()` at log_analyzer.py:16 takes it off |

## Findings

| source | as written | input that shows it | evidently intended | confidence | as-written member | corrected member |
|---|---|---|---|---|---|---|
| log_analyzer.py:100-101 | `display_report` calls `strftime` on the timestamp of each of the last five anomalies. `_parse_logs` stores `None` for a timestamp `strptime` rejects, so the call raises `AttributeError`. | a log file of the single line `[yesterday] WARNING: disk full` | the report lists every recent anomaly, as `last_anomaly` is guarded at log_analyzer.py:89-90; the model shows an anomaly without a timestamp by its raw line | high that it raises; not executed | LogStats.ReportRaisesOnUnparsedTimestamp | LogStats.RecentReportSpec |

## Left out

- SHA-256 and the 4096-byte chunked read: the digest is an input of each
  `Observation` (`Digest(hex)` or `ReadError(reason)`). A hexdigest is never
  empty, so `if file_hash:` reduces to "the digest succeeded".
- `rglob`, `is_file`, `relative_to` and `stat`: the walk is an input
  sequence. The lemmas that need each file to appear once require
  `DistinctPaths`. Path normalisation by `pathlib` is not modelled:
  `FullPath` is `folder + "/" + relative path`.
- The store file's JSON text: loading and saving move the whole map, and
  an unloadable file keeps only its error text.
- Exceptions while writing the store file or the log file: writes always
  succeed, so the `Error saving hash database` WARNING is never logged.
- The clock:
  - `now` is one instant per method call, where the code reads the clock
    once per event;
  - `created` is the same instant at second resolution, where the code
    stores an ISO text with microseconds;
  - `modified` (a float mtime) is an integer.
- ParseThenFormat: the round trip holds for the modelled `strptime`, which
  accepts only the zero-padded 19-character form. Python's `strptime` also
  accepts texts such as `2024-1-5 3:04:05`, which do not read back as
  themselves; see the ParseTimestamp line below.
- ParseTimestamp: `strptime` is modelled only on the zero-padded
  19-character form. Python also accepts single-digit fields and flexible
  whitespace, and parses non-ASCII digits. `%Y` for years below 1000 is
  written zero-padded, which is platform-dependent.
- LogStats.GetLogsByDateRangeSpec: the bounds `start` and `end` are
  instants at second resolution. Python compares `datetime` values with
  microseconds, so a bound such as 12:00:00.5 cannot be given. Parsed
  entries carry no microseconds, so for whole-second bounds the result is
  the same.
- The reader takes the file as a sequence of text lines. Splitting the file
  into lines, universal-newline translation and decoding errors are not
  modelled. A read error part-way through the file is like giving the lines
  read before it, and `Writable` excludes `\r` for this reason.
- DeletionPass: the set iteration order of `missing_files` is not modelled.
  The method returns the order it used as a ghost sequence, and every
  statement about the log holds for that order.
- The constructor's default arguments (`./secure_files`, `hash_db.json`,
  `security.log`) and its `mkdir(exist_ok=True)` of the watch folder: the
  folder and the two file names are parameters, and no state of the model
  depends on the folder existing.
- `_send_alert` and every `print`: console output only, no state.
- `continuous_monitor`: an endless loop of `check_integrity` calls with
  sleeps, which is repeated calls of `CheckIntegrity`.
- `main` of both files, `web_dashboard.py` and `demo_test.py`: command-line
  dispatch, rendering and random test data.
- The console lines `display_report` prints for the statistics: only the
  recent-anomaly lines are modelled (`ReportLine`).
- `get_statistics`, `get_logs_by_level`, `get_logs_by_date_range` and the
  report are functions of the analyzer's entry sequence (`logs`) rather
  than methods of the `LogAnalyzer` class, because they only read it.
