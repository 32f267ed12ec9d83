# Folding@Home stats recorder — a Dafny model

`folding_stats_recorder.py` records one Folding@Home donor's statistics over
time. Each hourly run does four things:

- It downloads the daily leaderboard dump and decompresses it into lines.
- It finds the donor's line.
- It reads the fields from that line: username, new credits, work units and team.
- It appends them, with the current time, to a CSV history file.

This project models the two steps with real logic, plus the glue between them.

- **Record locator** (`find_specific_user_data`, module `Leaderboard`):
  - Skips the dump's two preamble lines: the date and the column header.
  - Cuts each later line with Python 2's argument-less `split()` (module `Whitespace`).
  - Stops at the first line whose first token is the target name.
  - Turns that line's tokens into a four-field record.
  - Fails when no line matches, and on the two ways the code itself fails:
    - a blank line before the match, where `split(None, 1)[0]` raises `IndexError`;
    - a matched line without exactly four tokens, where the namedtuple constructor raises `TypeError`.
- **History appender** (`record_user_data_to_csv`, module `History`):
  - The file is a sequence of rows.
  - A run writes the header row when the file is empty.
  - It then writes one data row: the formatted time and the record's fields.
  - The time is `strftime('%m/%d/%Y %H:%M')` of an explicit clock reading (module `Timestamps`).
  - The rows are written out as text by the `csv` module's excel dialect (module `Csv`):
    - minimal quoting;
    - doubled quotes;
    - CR LF row ends;
    - cutting at NUL, as Python 2's C writer does;
    - quoting a lone empty field.
  - A reader for the written form, used to state the round trip.
- **Driver** (`record_folding_at_home_stats`, module `Recorder`):
  - Strips apostrophes from both ends of the username.
  - Looks the name up.
  - Appends to the file only when the lookup succeeds.

Python 2 details are modelled explicitly:

- Whitespace is the C `isspace` set on bytes: space, and tab through carriage return.
- `strftime` raises `ValueError` for years before 1900. The driver reports this as a failed run that leaves the file unchanged.
- `DictWriter.writerow` raises `ValueError` for a dictionary key that is not a column name, and writes `""` for a missing column.

The code and its documentation disagree on line ends. The documented example
history shows rows ended by a line feed. The code writes through
`csv.DictWriter` with the default dialect, which ends every row with `\r\n`.
The model follows the code.

## Model

| member | source | states |
|---|---|---|
| Whitespace.Split | folding_stats_recorder.py:83-87 | every token `split()` yields is non-empty and holds no whitespace; an empty line yields no tokens |
| Whitespace.SplitAllSpace | folding_stats_recorder.py:83 | a line of whitespace only yields no tokens, so `[0]` of it has nothing to index |
| Whitespace.SplitLayout | folding_stats_recorder.py:83-87 | splitting a line laid out as tokens separated by whitespace gaps gives back exactly those tokens |
| Whitespace.LayoutOfSplit | folding_stats_recorder.py:83-87 | every line is its own tokens interleaved with whitespace gaps, so splitting loses only whitespace |
| Whitespace.SplitUnique | folding_stats_recorder.py:83-87 | any reading of a line as whitespace-separated tokens is the one `split()` gives |
| Leaderboard.MakeRecord | folding_stats_recorder.py:74-87 | the namedtuple is built exactly when there are four tokens, and its fields in column order are those tokens; otherwise the field-count error carries the tokens |
| Leaderboard.Scan | folding_stats_recorder.py:82-88 | the scan from an index reports not-found exactly when no later line is blank or starts with the target, and otherwise gives the verdict of the first such line |
| Leaderboard.Find | folding_stats_recorder.py:61-90 | the lookup fails with not-found exactly when no line after the preamble is blank or starts with the target; otherwise the first such line decides the result |
| Leaderboard.FirstDecisiveExists | folding_stats_recorder.py:82-85 | when some donor line stops the scan, there is a first one in scan order |
| Leaderboard.FindSuccess | folding_stats_recorder.py:82-87 | a record is returned exactly when the first stopping line starts with the target, with no blank line before it, and has four tokens; the record's fields are that line's tokens |
| Leaderboard.FindBlankRow | folding_stats_recorder.py:83 | the lookup fails on a blank line exactly when that line is the first stopping line |
| Leaderboard.FindWrongFieldCount | folding_stats_recorder.py:87 | the lookup fails on a field count exactly when the first line starting with the target has other than four tokens |
| Leaderboard.ScanReadsOnlySuffix | folding_stats_recorder.py:82 | the scan from an index depends only on the lines from that index on |
| Leaderboard.FindIgnoresPreamble | folding_stats_recorder.py:81-82 | the first two lines never affect the result, even when they start with the target; a dump with only those two lines yields not-found |
| Leaderboard.ExampleStopsAtBob | folding_stats_recorder.py:85-87 | on the two donor lines of the example dump, a search for `bob` passes `alice` and stops at `bob` with the record (bob, 200, 10, 1) |
| Leaderboard.FindExampleFound | folding_stats_recorder.py:82-87 | in the example dump, `bob` is found as (bob, 200, 10, 1) |
| Leaderboard.FindExampleNotFound | folding_stats_recorder_test.py:45-50 | in the example dump, a name on no line is not found |
| Timestamps.FormatTime | folding_stats_recorder.py:111 | the time cell is always `MM/DD/YYYY HH:MM`: sixteen characters, separators in fixed places, digits elsewhere |
| Timestamps.Strftime | folding_stats_recorder.py:111 | formatting fails exactly when the year is before 1900, with that year; otherwise it gives the `MM/DD/YYYY HH:MM` cell |
| Timestamps.ParseFormatTime | folding_stats_recorder.py:111 | reading the cell back gives month, day, four-digit year, hour and minute of the clock, with the seconds dropped |
| Timestamps.FormatTimeSameMinute | folding_stats_recorder.py:111 | two clock readings print the same exactly when they fall in the same minute |
| Timestamps.DecimalValuePadded | folding_stats_recorder.py:111 | a zero-padded number reads back as the number |
| Timestamps.FormatTimeExample | folding_stats_recorder_test.py:24-42 | 2016-01-14 12:01 prints as `01/14/2016 12:01` |
| Csv.CutAtNul | folding_stats_recorder.py:120 | the written field is the longest NUL-free prefix of the value |
| Csv.FormatRow | folding_stats_recorder.py:119-120 | every written row ends with CR LF |
| Csv.LinePlain | folding_stats_recorder.py:119-120 | a row of non-empty fields that need no quoting is written as the fields joined by commas |
| Csv.ReadQuotedEscape | folding_stats_recorder.py:120 | a field with its quotes doubled, then closed by a quote, reads back as the field |
| Csv.ReadRenderedField | folding_stats_recorder.py:120 | each written field, quoted or not, reads back as the value cut at its first NUL |
| Csv.ReadJoinFields | folding_stats_recorder.py:120 | the comma-joined written fields read back as the values, each cut at NUL |
| Csv.ReadLine | folding_stats_recorder.py:117-120 | a written row, a lone empty field included, reads back as its values cut at NUL |
| History.RowDict | folding_stats_recorder.py:110-114 | the dictionary handed to the writer has exactly the five column names as keys |
| History.DictRow | folding_stats_recorder.py:117-120 | the row has one cell per column: the dictionary's value for that column, or `""` when the dictionary lacks it |
| History.WriteRow | folding_stats_recorder.py:120 | `writerow` refuses a dictionary exactly when it holds a key that is not a column name, and names exactly those keys; otherwise it writes the dictionary's row |
| History.DictRowIsDataRow | folding_stats_recorder.py:108-120 | the writer accepts the recorder's dictionary, and the row it writes is the time followed by username, new credits, work units and team |
| History.HeaderIsNotDataRow | folding_stats_recorder.py:108 | the header row is never a data row, because `time` is not a timestamp |
| History.DataRowIsDataRow | folding_stats_recorder.py:110-114 | every data row has one value per column and a timestamp that reads back |
| History.Append | folding_stats_recorder.py:116-120 | an empty file becomes the header row and then the data row; any other file keeps every row and gains exactly the data row at the end |
| History.AppendNoSecondHeader | folding_stats_recorder.py:118-120 | appending to a non-empty file never writes the header again |
| History.AppendKeepsHistory | folding_stats_recorder.py:116-120 | appending keeps a history a history: one header on top, data rows below |
| History.HistoryHeaderOnce | folding_stats_recorder.py:116-120 | in a history the header occurs exactly once, at row 0 |
| History.AppendAllStep | folding_stats_recorder.py:116-120 | a series of runs is the runs one after the other |
| History.AppendAllNonEmpty | folding_stats_recorder.py:116-120 | runs on a non-empty file append their data rows in run order after the existing rows |
| History.AppendAllFromEmpty | folding_stats_recorder.py:15-16 | N runs from an empty file leave one header and N data rows in run order, with equal timestamps kept |
| History.AppendTextAgrees | folding_stats_recorder.py:116-120 | the row model matches the text model: the header is written exactly when the file's text is empty, then the data row |
| History.ReadBackDataRow | folding_stats_recorder.py:110-120 | a written data row reads back as the time and the record's fields cut at NUL, and the time reads back as the clock to the minute |
| History.TimeIsPlain | folding_stats_recorder.py:111 | the time cell never needs quoting and holds no NUL |
| History.HeaderLine | folding_stats_recorder.py:97 | the header line is the column names joined by commas |
| History.FirstRunText | folding_stats_recorder.py:118-120 | with no field needing quoting, the first run writes exactly the header line and the comma-joined data line |
| History.AppendExample | folding_stats_recorder.py:116-120 | the 2016-01-14 12:01 run for (bob, 200, 10, 1) on an empty file gives two rows: the header row, then the row (01/14/2016 12:01, bob, 200, 10, 1) |
| History.RecordedTestRun | folding_stats_recorder_test.py:24-43 | at 2016-01-14 12:01, with a file of non-zero size holding the header and one row, the run for (Justin_N_Lulejian, 16781810, 2434, 0) hands the writer exactly the expected five-entry dictionary; the writer's row is (01/14/2016 12:01, Justin_N_Lulejian, 16781810, 2434, 0), and it is the one row added, with no second header |
| Recorder.StripApostrophes | folding_stats_recorder.py:185 | the stripped name neither starts nor ends with an apostrophe and is no longer than the input |
| Recorder.StripApostrophesMiddle | folding_stats_recorder.py:185 | stripping removes a run of apostrophes at each end and nothing else |
| Recorder.StripApostrophesUnique | folding_stats_recorder.py:185 | any apostrophe runs around a name that has none at its ends strip to that name |
| Recorder.StripApostrophesIdempotent | folding_stats_recorder.py:185 | stripping twice is stripping once |
| Recorder.RecordStats | folding_stats_recorder.py:183-187 | a run succeeds exactly when the lookup of the stripped name succeeds and the year is 1900 or later. A failed lookup gives its error, and a found name with an earlier year gives the `strftime` error; in both cases no file is written. On success the file grows by the header and one row, or by one row |
| Recorder.RecordStatsRow | folding_stats_recorder.py:183-187 | the row a successful run adds holds the time, then the stripped name and the other tokens of the first matching dump line |
| Recorder.RecordStatsQuoted | folding_stats_recorder.py:185 | quoting the username in apostrophes on the command line does not change the run |

## Left out

- Downloading the dump (`retrieve_user_data_file`, lines 34-44) is a network call. The model starts from the dump's lines.
- Decompressing the dump (`decompress_userdata_to_list`, lines 46-58) is a bz2 library call followed by `splitlines`. The lines are an input.
- The click command line, its defaults, and the `validate_record_location` and `validate_fah_username` callbacks (lines 123-171) are argument parsing and `open` probes. An empty username is not rejected up front: `Find` of an empty name yields not-found or a blank-row error, because no token is empty.
- Logging setup and messages (lines 173-188) have no effect on the data.
- The real file is modelled by its rows and their text:
  - no file handles;
  - no `a+` mode;
  - no concurrent writers;
  - no I/O errors.
  `os.path.getsize(...) == 0` is modelled as "the written text is empty".
- `datetime.now()` is an explicit `Clock` parameter. Time zones and the sub-second part are not modelled.
- Timestamps.FormatTime: takes only readings with years from 1900 on. The `ValueError` for earlier years is modelled by `Timestamps.Strftime` and `Recorder.RecordStats`. Years outside 1 to 9999 are excluded, because `datetime` cannot hold them.
- The username's `encode('utf8')` is not modelled. Strings are sequences of characters, compared exactly.
- `Leaderboard.Record` keeps the four fields as strings, as the namedtuple does. Nothing converts them to numbers.
