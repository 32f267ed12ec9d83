/**
 The history appender: one timestamped row per run, added to a CSV file
 that gets its header only when it is empty.
 */
module History {
  import opened Wrappers
  import opened Leaderboard
  import opened Timestamps
  import opened Csv

  /** A row of the history file, field by field. */
  type Row = seq<string>

  /** The history file as the rows it holds. */
  type File = seq<Row>

  /** The column names: `time` followed by the record's fields. */
  const Header: Row := ["time"] + FieldNames

  /**
   The dictionary the recorder hands to the CSV writer: the formatted time
   and the record's four fields, each under its column name.
   */
  function RowDict(rec: Record, c: Clock): (d: map<string, string>)
    requires Valid(c)
    ensures forall k :: k in d <==> k in Header
  {
    TimedDict(FormatTime(c), rec)
  }

  function TimedDict(time: string, rec: Record): (d: map<string, string>)
    ensures forall k :: k in d <==> k in Header
  {
    map["time" := time, "username" := rec.username, "new_credits" := rec.newCredits,
        "sum_workunits" := rec.sumWorkunits, "team_num" := rec.teamNum]
  }

  /**
   The row `DictWriter` builds from a dictionary: the entries in column
   order, an absent column giving the writer's default empty value.
   */
  function DictRow(fieldnames: seq<string>, d: map<string, string>): (row: Row)
    ensures |row| == |fieldnames|
    ensures forall i :: 0 <= i < |fieldnames| && fieldnames[i] in d ==> row[i] == d[fieldnames[i]]
    ensures forall i :: 0 <= i < |fieldnames| && fieldnames[i] !in d ==> row[i] == ""
  {
    if fieldnames == [] then []
    else [if fieldnames[0] in d then d[fieldnames[0]] else ""] + DictRow(fieldnames[1..], d)
  }

  /** Why `DictWriter.writerow` refused a dictionary: the keys that are not column names. */
  datatype WriterError = FieldsNotInFieldnames(wrong: set<string>)

  /**
   `DictWriter.writerow` with the default `extrasaction='raise'`: a
   dictionary holding a key that is not a column name raises `ValueError`;
   any other gives its row.
   */
  function WriteRow(fieldnames: seq<string>, d: map<string, string>): (r: Result<Row, WriterError>)
    ensures r.Failure? <==> exists k :: k in d && k !in fieldnames
    ensures r.Failure? ==> forall k :: k in r.error.wrong <==> k in d && k !in fieldnames
    ensures r.Success? ==> r.value == DictRow(fieldnames, d)
  {
    var wrong := set k | k in d && k !in fieldnames;
    if wrong != {} then Failure(FieldsNotInFieldnames(wrong))
    else
      assert forall k :: k in d && k !in fieldnames ==> k in wrong;
      Success(DictRow(fieldnames, d))
  }

  /** The data row of one run: the formatted time, then the record's fields in column order. */
  function DataRow(rec: Record, c: Clock): (row: Row)
    requires Valid(c)
    ensures |row| == |Header|
  {
    [FormatTime(c)] + Fields(rec)
  }

  lemma TimedDictValues(time: string, rec: Record)
    ensures var d := TimedDict(time, rec);
            && d["time"] == time && d["username"] == rec.username && d["new_credits"] == rec.newCredits
            && d["sum_workunits"] == rec.sumWorkunits && d["team_num"] == rec.teamNum
  {
  }

  /** With every column present, the row is the five looked-up values in column order. */
  lemma FiveColumnRow(names: seq<string>, d: map<string, string>)
    requires |names| == 5 && forall i :: 0 <= i < |names| ==> names[i] in d
    ensures DictRow(names, d) == [d[names[0]], d[names[1]], d[names[2]], d[names[3]], d[names[4]]]
  {
  }

  lemma HeaderRow(d: map<string, string>)
    requires forall k :: k in d <==> k in Header
    ensures DictRow(Header, d) == [d["time"], d["username"], d["new_credits"], d["sum_workunits"], d["team_num"]]
  {
    assert Header == ["time", "username", "new_credits", "sum_workunits", "team_num"];
    assert Header[0] in d && Header[1] in d && Header[2] in d && Header[3] in d && Header[4] in d;
    FiveColumnRow(Header, d);
  }

  lemma TimedDictRow(time: string, rec: Record)
    ensures DictRow(Header, TimedDict(time, rec)) == [time] + Fields(rec)
  {
    HeaderRow(TimedDict(time, rec));
    TimedDictValues(time, rec);
  }

  /**
   The recorder's dictionary has no key outside the columns, so `DictWriter`
   accepts it and puts each value under its column name: the row it writes
   is the data row, formatted time, then username, new credits, work units
   and team.
   */
  lemma DictRowIsDataRow(rec: Record, c: Clock)
    requires Valid(c)
    ensures WriteRow(Header, RowDict(rec, c)) == Success(DataRow(rec, c))
  {
    TimedDictRow(FormatTime(c), rec);
  }

  /** A data row: one value per column, a well-formed time first. */
  predicate IsDataRow(row: Row) {
    |row| == |Header| && ParseTime(row[0]).Some?
  }

  /**
   The shape the history file keeps: empty, or the header followed by
   data rows only.
   */
  predicate IsHistory(f: File) {
    f == [] || (f[0] == Header && forall i :: 1 <= i < |f| ==> IsDataRow(f[i]))
  }

  /** A data row is never the header: `time` is not a timestamp. */
  lemma HeaderIsNotDataRow()
    ensures !IsDataRow(Header)
  {
    assert |Header[0]| == 4;
  }

  lemma DataRowIsDataRow(rec: Record, c: Clock)
    requires Valid(c)
    ensures IsDataRow(DataRow(rec, c))
  {
    ParseFormatTime(c);
  }

  /**
   Adding one row to the file: an empty file gets the header first; any
   other file keeps every row it had and gains the row at its end.
   */
  function AppendRow(file: File, row: Row): (f: File)
    ensures file == [] ==> f == [Header, row]
    ensures file != [] ==> |f| == |file| + 1 && f[..|file|] == file
    ensures f[|f| - 1] == row
  {
    if file == [] then [Header, row] else file + [row]
  }

  /** `record_user_data_to_csv` on the rows of the file. */
  function Append(file: File, rec: Record, c: Clock): (f: File)
    requires Valid(c)
    ensures file == [] ==> f == [Header, DataRow(rec, c)]
    ensures file != [] ==> |f| == |file| + 1 && f[..|file|] == file
    ensures f[|f| - 1] == DataRow(rec, c)
  {
    AppendRow(file, DataRow(rec, c))
  }

  /** Appending to a non-empty file never writes the header again. */
  lemma AppendNoSecondHeader(file: File, rec: Record, c: Clock)
    requires Valid(c) && file != []
    ensures forall i :: |file| <= i < |Append(file, rec, c)| ==> Append(file, rec, c)[i] != Header
  {
    DataRowIsDataRow(rec, c);
    HeaderIsNotDataRow();
  }

  /** Appending keeps the file a history: one header, then data rows. */
  lemma AppendKeepsHistory(file: File, rec: Record, c: Clock)
    requires Valid(c) && IsHistory(file)
    ensures IsHistory(Append(file, rec, c))
  {
    DataRowIsDataRow(rec, c);
  }

  /** In a history, the header occurs once, at the top. */
  lemma HistoryHeaderOnce(f: File)
    requires IsHistory(f)
    ensures forall i :: 0 <= i < |f| ==> (f[i] == Header <==> i == 0)
  {
    HeaderIsNotDataRow();
  }

  /** A clock reading the recorder can print. */
  type ValidClock = c: Clock | Valid(c) witness Clock(1900, 1, 1, 0, 0, 0)

  /** One run's input to the appender: the record found and the clock reading. */
  datatype Entry = Entry(rec: Record, clock: ValidClock)

  /** The data rows of several runs, in run order. */
  function DataRows(es: seq<Entry>): (rows: seq<Row>)
    ensures |rows| == |es|
    ensures forall i :: 0 <= i < |es| ==> rows[i] == DataRow(es[i].rec, es[i].clock)
  {
    if es == [] then []
    else
      var rest := DataRows(es[1..]);
      assert forall i :: 1 <= i < |es| ==> es[1..][i - 1] == es[i];
      [DataRow(es[0].rec, es[0].clock)] + rest
  }

  /** Rows added one after the other. */
  function AppendRows(file: File, rows: seq<Row>): File {
    if rows == [] then file
    else AppendRow(AppendRows(file, rows[..|rows| - 1]), rows[|rows| - 1])
  }

  /** The file after one run per entry, in order. */
  function AppendAll(file: File, es: seq<Entry>): File {
    AppendRows(file, DataRows(es))
  }

  lemma DataRowsSnoc(es: seq<Entry>, e: Entry)
    ensures DataRows(es + [e]) == DataRows(es) + [DataRow(e.rec, e.clock)]
  {
  }

  /** Running the entries of `es` and then `e` is one more run of the appender. */
  lemma AppendAllStep(file: File, es: seq<Entry>, e: Entry)
    ensures AppendAll(file, es + [e]) == Append(AppendAll(file, es), e.rec, e.clock)
  {
    var rows := DataRows(es + [e]);
    DataRowsSnoc(es, e);
    assert rows[..|rows| - 1] == DataRows(es);
  }

  lemma {:induction false} AppendRowsNonEmpty(file: File, rows: seq<Row>)
    requires file != []
    ensures AppendRows(file, rows) == file + rows
  {
    if rows == [] {
      assert file + rows == file;
    } else {
      var init := rows[..|rows| - 1];
      AppendRowsNonEmpty(file, init);
      assert rows == init + [rows[|rows| - 1]];
    }
  }

  lemma {:induction false} AppendRowsSplit(file: File, a: seq<Row>, b: seq<Row>)
    ensures AppendRows(file, a + b) == AppendRows(AppendRows(file, a), b)
  {
    if b == [] {
      assert a + b == a;
    } else {
      var ab := a + b;
      assert ab[..|ab| - 1] == a + b[..|b| - 1];
      assert ab[|ab| - 1] == b[|b| - 1];
      AppendRowsSplit(file, a, b[..|b| - 1]);
    }
  }

  lemma AppendRowsFromEmpty(rows: seq<Row>)
    requires rows != []
    ensures AppendRows([], rows) == [Header] + rows
  {
    var first := rows[0];
    var rest := rows[1..];
    assert rows == [first] + rest;
    assert AppendRows([], [first]) == [Header, first] by {
      assert [first][..0] == [];
    }
    AppendRowsSplit([], [first], rest);
    AppendRowsNonEmpty(AppendRows([], [first]), rest);
  }

  /**
   Runs on a non-empty file add their data rows, one per run, in run
   order, after the rows already there.
   */
  lemma AppendAllNonEmpty(file: File, es: seq<Entry>)
    requires file != []
    ensures AppendAll(file, es) == file + DataRows(es)
  {
    AppendRowsNonEmpty(file, DataRows(es));
  }

  /**
   Runs starting from an empty file leave exactly one header followed by
   one data row per run, in run order; runs in the same minute are not
   merged.
   */
  lemma AppendAllFromEmpty(es: seq<Entry>)
    requires es != []
    ensures AppendAll([], es) == [Header] + DataRows(es)
    ensures |AppendAll([], es)| == |es| + 1
  {
    AppendRowsFromEmpty(DataRows(es));
  }

  /**
   `record_user_data_to_csv` on the file's text: the header is written
   exactly when the file has size zero, then the data row.
   */
  function AppendText(text: string, rec: Record, c: Clock): string
    requires Valid(c)
  {
    if |text| == 0 then FormatRow(Header) + FormatRow(DataRow(rec, c))
    else text + FormatRow(DataRow(rec, c))
  }

  /**
   The row model and the text agree: writing out the appended rows gives
   the text the recorder writes to the written-out file.
   */
  lemma AppendTextAgrees(file: File, rec: Record, c: Clock)
    requires Valid(c)
    ensures FormatRows(Append(file, rec, c)) == AppendText(FormatRows(file), rec, c)
  {
    var row := DataRow(rec, c);
    if file == [] {
      var top := FormatRow(Header);
      assert FormatRows([Header]) == top by {
        FormatRowsSnoc([], Header);
      }
      assert FormatRows(Append(file, rec, c)) == top + FormatRow(row) by {
        assert Append(file, rec, c) == [Header] + [row];
        FormatRowsSnoc([Header], row);
      }
      assert AppendText([], rec, c) == top + FormatRow(row);
    } else {
      assert Append(file, rec, c) == file + [row];
      FormatRowsSnoc(file, row);
      assert AppendText(FormatRows(file), rec, c) == FormatRows(file) + FormatRow(row);
    }
  }

  /**
   A data row as written reads back as the formatted time and the record's
   fields, and the time reads back as the reading to the minute.
   */
  lemma ReadBackDataRow(rec: Record, c: Clock)
    requires Valid(c)
    ensures ReadFields(Line(DataRow(rec, c))) == [FormatTime(c)] + CutAll(Fields(rec))
    ensures ParseTime(ReadFields(Line(DataRow(rec, c)))[0]) == Some(ToMinute(c))
  {
    var t := FormatTime(c);
    var row := DataRow(rec, c);
    ReadLine(row);
    TimeIsPlain(c);
    CutAtNulNoNul(t);
    assert CutAll(row) == [t] + CutAll(Fields(rec)) by {
      assert row == [t] + Fields(rec);
    }
    ParseFormatTime(c);
  }

  /** A time cell holds digits and separators only: no NUL, nothing the writer must quote. */
  lemma TimeIsPlain(c: Clock)
    requires Valid(c)
    ensures '\0' !in FormatTime(c) && !NeedsQuotes(FormatTime(c))
  {
    var t := FormatTime(c);
    forall i | 0 <= i < |t| ensures t[i] == '/' || t[i] == ' ' || t[i] == ':' || IsDigit(t[i]) {
      if i < 2 { assert t[0..2][i] == t[i]; }
      else if 2 < i < 5 { assert t[3..5][i - 3] == t[i]; }
      else if 5 < i < 10 { assert t[6..10][i - 6] == t[i]; }
      else if 10 < i < 13 { assert t[11..13][i - 11] == t[i]; }
      else if 13 < i { assert t[14..16][i - 14] == t[i]; }
    }
  }

  /** The header line as written: the column names joined by commas. */
  lemma HeaderLine()
    ensures FormatRow(Header) == Joined(Header) + LineTerminator
  {
    assert AllPlain(Header);
    LinePlain(Header);
  }

  /**
   When no field of the record needs quoting, the first run writes exactly
   two lines: the column names and the row's values, each joined by commas.
   */
  lemma FirstRunText(rec: Record, c: Clock)
    requires Valid(c) && AllPlain(Fields(rec))
    ensures AppendText([], rec, c) == Joined(Header) + LineTerminator + Joined(DataRow(rec, c)) + LineTerminator
  {
    HeaderLine();
    TimeIsPlain(c);
    var row := DataRow(rec, c);
    assert AllPlain(row) by {
      forall i | 0 <= i < |row| ensures '\0' !in row[i] && !NeedsQuotes(row[i]) && row[i] != [] {
        if i > 0 { assert row[i] == Fields(rec)[i - 1]; }
      }
    }
    LinePlain(row);
  }

  lemma ExampleDataRow(second: int)
    requires 0 <= second < 60
    ensures DataRow(Record("bob", "200", "10", "1"), Clock(2016, 1, 14, 12, 1, second))
            == ["01/14/2016 12:01", "bob", "200", "10", "1"]
  {
    FormatTimeExample(second);
  }

  /**
   Recording `bob 200 10 1` at 2016-01-14 12:01 into an empty file gives
   the header row and the data row `01/14/2016 12:01,bob,200,10,1`.
   */
  lemma AppendExample(second: int)
    requires 0 <= second < 60
    ensures Append([], Record("bob", "200", "10", "1"), Clock(2016, 1, 14, 12, 1, second))
            == [["time", "username", "new_credits", "sum_workunits", "team_num"],
                ["01/14/2016 12:01", "bob", "200", "10", "1"]]
  {
    ExampleDataRow(second);
    assert Header == ["time", "username", "new_credits", "sum_workunits", "team_num"];
  }
  /** The recorder's dictionary, entry by entry, in any key order. */
  lemma TimedDictEntries(time: string, user: string, credits: string, units: string, team: string)
    ensures TimedDict(time, Record(user, credits, units, team))
         == map["username" := user, "new_credits" := credits, "sum_workunits" := units,
                "team_num" := team, "time" := time]
  {
  }

  /**
   The recorder's test run: `Justin_N_Lulejian 16781810 2434 0` recorded at
   2016-01-14 12:01 into a file of size one, holding the header and an
   earlier row. The writer is handed exactly the five-entry dictionary the
   test expects, writes its row, and the file gains that one row with no
   second header.
   */
  lemma RecordedTestRun(second: int)
    requires 0 <= second < 60
    ensures var rec := Record("Justin_N_Lulejian", "16781810", "2434", "0");
            var c := Clock(2016, 1, 14, 12, 1, second);
            var row := ["01/14/2016 12:01", "Justin_N_Lulejian", "16781810", "2434", "0"];
            var file := [Header, ["12/31/2016 18:33", "Justin_N_Lulejian", "16781810", "2434", "0"]];
            && RowDict(rec, c) == map["username" := "Justin_N_Lulejian", "new_credits" := "16781810",
                                      "sum_workunits" := "2434", "team_num" := "0",
                                      "time" := "01/14/2016 12:01"]
            && WriteRow(Header, RowDict(rec, c)) == Success(row)
            && Append(file, rec, c) == file + [row]
  {
    var rec := Record("Justin_N_Lulejian", "16781810", "2434", "0");
    var c := Clock(2016, 1, 14, 12, 1, second);
    var row := ["01/14/2016 12:01", "Justin_N_Lulejian", "16781810", "2434", "0"];
    assert DataRow(rec, c) == row by {
      FormatTimeExample(second);
    }
    assert FormatTime(c) == "01/14/2016 12:01" by {
      FormatTimeExample(second);
    }
    TimedDictEntries("01/14/2016 12:01", "Justin_N_Lulejian", "16781810", "2434", "0");
    DictRowIsDataRow(rec, c);
  }
}
