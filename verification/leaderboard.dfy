/**
 The record locator: finding one donor's line in the decompressed daily
 user summary and turning it into a four-field record.
 */
module Leaderboard {
  import opened Wrappers
  import opened Whitespace

  /** One donor's line of the summary, field for field, kept as text. */
  datatype Record = Record(username: string, newCredits: string, sumWorkunits: string, teamNum: string)

  /** Column names of a record, in the summary's column order. */
  const FieldNames: seq<string> := ["username", "new_credits", "sum_workunits", "team_num"]

  /** Lines before the first donor line: the generation date and the column header. */
  const PreambleLength: nat := 2

  /** The record's fields in column order. */
  function Fields(r: Record): (fs: seq<string>)
    ensures |fs| == |FieldNames|
  {
    [r.username, r.newCredits, r.sumWorkunits, r.teamNum]
  }

  /** Why a lookup fails. */
  datatype LookupError =
    /** No donor line starts with the requested name. */
    | UserNotFound(target: string)
    /** A line with no token was reached before the match; taking its first token fails. */
    | BlankRow(row: string)
    /** The matching line does not have exactly one token per record field. */
    | WrongFieldCount(tokens: seq<string>)

  /** Building the record from a line's tokens, which must be one per field. */
  function MakeRecord(tokens: seq<string>): (r: Result<Record, LookupError>)
    ensures r.Success? <==> |tokens| == |FieldNames|
    ensures r.Success? ==> Fields(r.value) == tokens
    ensures r.Failure? ==> r.error == WrongFieldCount(tokens)
  {
    if |tokens| == 4 then Success(Record(tokens[0], tokens[1], tokens[2], tokens[3]))
    else Failure(WrongFieldCount(tokens))
  }

  /** A line where the scan stops: it has no first token, or its first token is the target. */
  predicate Decisive(row: string, target: string) {
    var tokens := Split(row);
    tokens == [] || tokens[0] == target
  }

  /** What the scan produces once it stops at the decisive line `row`. */
  function Verdict(row: string): Result<Record, LookupError> {
    var tokens := Split(row);
    if tokens == [] then Failure(BlankRow(row)) else MakeRecord(tokens)
  }

  /** `rows[k]` is the first decisive line at or after index `from`. */
  predicate FirstDecisive(rows: seq<string>, target: string, from: nat, k: int) {
    && from <= k < |rows|
    && Decisive(rows[k], target)
    && forall j :: from <= j < k ==> !Decisive(rows[j], target)
  }

  /** The line-by-line scan from index `from` on. */
  function Scan(rows: seq<string>, target: string, from: nat): (r: Result<Record, LookupError>)
    ensures r == Failure(UserNotFound(target)) <==>
              forall j :: from <= j < |rows| ==> !Decisive(rows[j], target)
    ensures forall k :: FirstDecisive(rows, target, from, k) ==> r == Verdict(rows[k])
    decreases |rows| - from
  {
    if from >= |rows| then Failure(UserNotFound(target))
    else
      var tokens := Split(rows[from]);
      if tokens == [] then Failure(BlankRow(rows[from]))
      else if tokens[0] == target then MakeRecord(tokens)
      else
        assert !Decisive(rows[from], target);
        assert forall k :: FirstDecisive(rows, target, from, k) ==> FirstDecisive(rows, target, from + 1, k);
        Scan(rows, target, from + 1)
  }

  /**
   Looks `target` up among the donor lines, skipping the preamble. The
   result is decided by the first line that is blank or starts with the
   target; if there is none, the user is not found.
   */
  function Find(rows: seq<string>, target: string): (r: Result<Record, LookupError>)
    ensures r == Failure(UserNotFound(target)) <==>
              forall j :: PreambleLength <= j < |rows| ==> !Decisive(rows[j], target)
    ensures forall k :: FirstDecisive(rows, target, PreambleLength, k) ==> r == Verdict(rows[k])
  {
    Scan(rows, target, PreambleLength)
  }

  /** If some line from `from` on is decisive, there is a first one. */
  lemma {:induction false} FirstDecisiveExists(rows: seq<string>, target: string, from: nat)
    returns (k: nat)
    requires exists j :: from <= j < |rows| && Decisive(rows[j], target)
    ensures FirstDecisive(rows, target, from, k)
    decreases |rows| - from
  {
    if Decisive(rows[from], target) {
      k := from;
    } else {
      k := FirstDecisiveExists(rows, target, from + 1);
    }
  }

  /**
   A successful lookup returns the first donor line, in scan order, whose
   first token equals the target exactly, with no blank line before it;
   the record's fields are that line's tokens in column order.
   */
  lemma FindSuccess(rows: seq<string>, target: string, rec: Record)
    ensures Find(rows, target) == Success(rec) <==>
              && rec.username == target
              && exists k :: FirstDecisive(rows, target, PreambleLength, k) && Split(rows[k]) == Fields(rec)
  {
    if Find(rows, target) == Success(rec) {
      var k := FirstDecisiveExists(rows, target, PreambleLength);
      assert Split(rows[k]) == Fields(rec);
    }
  }

  /**
   A lookup fails on a blank line exactly when that line is reached before
   any line that starts with the target.
   */
  lemma FindBlankRow(rows: seq<string>, target: string, row: string)
    ensures Find(rows, target) == Failure(BlankRow(row)) <==>
              exists k :: FirstDecisive(rows, target, PreambleLength, k) && rows[k] == row && Split(row) == []
  {
    if Find(rows, target) == Failure(BlankRow(row)) {
      var k := FirstDecisiveExists(rows, target, PreambleLength);
      assert rows[k] == row;
    }
  }

  /**
   A lookup fails on the field count exactly when the first line that
   starts with the target (with no blank line before it) has other than
   four tokens.
   */
  lemma FindWrongFieldCount(rows: seq<string>, target: string, tokens: seq<string>)
    ensures Find(rows, target) == Failure(WrongFieldCount(tokens)) <==>
              && tokens != [] && tokens[0] == target && |tokens| != |FieldNames|
              && exists k :: FirstDecisive(rows, target, PreambleLength, k) && Split(rows[k]) == tokens
  {
    if Find(rows, target) == Failure(WrongFieldCount(tokens)) {
      var k := FirstDecisiveExists(rows, target, PreambleLength);
      assert Split(rows[k]) == tokens;
    }
  }

  /** Scans from the same index agree on rows that agree from that index on. */
  lemma {:induction false} ScanReadsOnlySuffix(rows: seq<string>, rows': seq<string>, target: string, from: nat)
    requires from <= |rows| && from <= |rows'| && rows[from..] == rows'[from..]
    ensures Scan(rows, target, from) == Scan(rows', target, from)
    decreases |rows| - from
  {
    if from < |rows| {
      assert rows[from] == rows[from..][0] == rows'[from..][0] == rows'[from];
      assert rows[from + 1..] == rows[from..][1..];
      assert rows'[from + 1..] == rows'[from..][1..];
      ScanReadsOnlySuffix(rows, rows', target, from + 1);
    }
  }

  /**
   The date line and the column header are never candidates: replacing
   them by anything, even lines that start with the target, changes
   nothing; a dump with no line after them never finds anyone.
   */
  lemma FindIgnoresPreamble(rows: seq<string>, date: string, header: string, target: string)
    requires |rows| >= PreambleLength
    ensures Find(rows, target) == Find([date, header] + rows[PreambleLength..], target)
    ensures |rows| == PreambleLength ==> Find(rows, target) == Failure(UserNotFound(target))
  {
    var rows' := [date, header] + rows[PreambleLength..];
    assert rows'[PreambleLength..] == rows[PreambleLength..];
    ScanReadsOnlySuffix(rows, rows', target, PreambleLength);
  }

  lemma AliceTokens()
    ensures Split("alice 100 5 0") == ["alice", "100", "5", "0"]
  {
    var ts := ["alice", "100", "5", "0"];
    var gaps := ["", " ", " ", " ", ""];
    assert Separates(ts, gaps);
    assert Layout(ts, gaps) == "alice 100 5 0";
    SplitLayout(ts, gaps);
  }

  lemma BobTokens()
    ensures Split("bob 200 10 1") == ["bob", "200", "10", "1"]
  {
    var ts := ["bob", "200", "10", "1"];
    var gaps := ["", " ", " ", " ", ""];
    assert Separates(ts, gaps);
    assert Layout(ts, gaps) == "bob 200 10 1";
    SplitLayout(ts, gaps);
  }

  lemma ExampleStopsAtBob(alice: string, bob: string)
    requires Split(alice) == ["alice", "100", "5", "0"] && Split(bob) == ["bob", "200", "10", "1"]
    ensures !Decisive(alice, "bob") && Decisive(bob, "bob")
    ensures Verdict(bob) == Success(Record("bob", "200", "10", "1"))
  {
    assert |"alice"| != |"bob"|;
  }

  lemma ExampleNeverStopsForCarol(alice: string, bob: string)
    requires Split(alice) == ["alice", "100", "5", "0"] && Split(bob) == ["bob", "200", "10", "1"]
    ensures !Decisive(alice, "carol") && !Decisive(bob, "carol")
  {
    assert "alice"[0] != "carol"[0];
    assert |"bob"| != |"carol"|;
  }

  /**
   A dump whose donor lines are `alice 100 5 0` and `bob 200 10 1`, under
   any date and header line: `bob` is found with his four fields.
   */
  lemma FindExampleFound(rows: seq<string>)
    requires |rows| == 4 && rows[2] == "alice 100 5 0" && rows[3] == "bob 200 10 1"
    ensures Find(rows, "bob") == Success(Record("bob", "200", "10", "1"))
  {
    AliceTokens();
    BobTokens();
    ExampleStopsAtBob(rows[2], rows[3]);
    assert FirstDecisive(rows, "bob", PreambleLength, 3);
  }

  /** The same dump: `carol`, whom no donor line names, is not found. */
  lemma FindExampleNotFound(rows: seq<string>)
    requires |rows| == 4 && rows[2] == "alice 100 5 0" && rows[3] == "bob 200 10 1"
    ensures Find(rows, "carol") == Failure(UserNotFound("carol"))
  {
    AliceTokens();
    BobTokens();
    ExampleNeverStopsForCarol(rows[2], rows[3]);
    forall j | PreambleLength <= j < |rows| ensures !Decisive(rows[j], "carol") {
      assert j == 2 || j == 3;
    }
  }
}
