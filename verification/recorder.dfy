/**
 The recorder's driver: look the donor up in the decompressed leaderboard
 dump, then append one timestamped row for them to the history file.
 */
module Recorder {
  import opened Wrappers
  import opened Leaderboard
  import opened Timestamps
  import opened History
  import opened Whitespace

  const Apostrophe: char := '\''

  predicate AllApostrophes(s: string) {
    forall i :: 0 <= i < |s| ==> s[i] == Apostrophe
  }

  /** Neither end of `s` is an apostrophe. */
  predicate Trimmed(s: string) {
    s == [] || (s[0] != Apostrophe && s[|s| - 1] != Apostrophe)
  }

  /** The length of the run of apostrophes that `s` starts with. */
  function LeadingApostrophes(s: string): (n: nat)
    ensures n <= |s|
    ensures forall i :: 0 <= i < n ==> s[i] == Apostrophe
    ensures n < |s| ==> s[n] != Apostrophe
  {
    if s == [] || s[0] != Apostrophe then 0
    else 1 + LeadingApostrophes(s[1..])
  }

  /** The length of the run of apostrophes that `s` ends with. */
  function TrailingApostrophes(s: string): (n: nat)
    ensures n <= |s|
    ensures forall i :: |s| - n <= i < |s| ==> s[i] == Apostrophe
    ensures n < |s| ==> s[|s| - 1 - n] != Apostrophe
  {
    if s == [] || s[|s| - 1] != Apostrophe then 0
    else 1 + TrailingApostrophes(s[..|s| - 1])
  }

  /**
   The username with apostrophes removed from both ends, as the shell-quoted
   command-line option is cleaned before the lookup: what is left neither
   starts nor ends with an apostrophe.
   */
  function StripApostrophes(s: string): (r: string)
    ensures |r| <= |s|
    ensures Trimmed(r)
  {
    var rest := s[LeadingApostrophes(s)..];
    rest[..|rest| - TrailingApostrophes(rest)]
  }

  /** What stripping removes is a run of apostrophes at each end. */
  lemma StripApostrophesMiddle(s: string) returns (a: string, b: string)
    ensures AllApostrophes(a) && AllApostrophes(b)
    ensures s == a + StripApostrophes(s) + b
  {
    var lead := LeadingApostrophes(s);
    var rest := s[lead..];
    var trail := TrailingApostrophes(rest);
    var stop := |s| - trail;
    assert rest[..|rest| - trail] == s[lead..stop];
    a, b := s[..lead], s[stop..];
    assert AllApostrophes(b) by {
      assert b == rest[|rest| - trail..];
    }
    ThreeParts(s, lead, stop);
  }

  lemma ThreeParts(s: string, i: nat, j: nat)
    requires i <= j <= |s|
    ensures s == s[..i] + s[i..j] + s[j..]
  {
  }

  /** An apostrophe run followed by anything is measured exactly. */
  lemma {:induction false} LeadingApostrophesOf(a: string, t: string)
    requires AllApostrophes(a) && (t == [] || t[0] != Apostrophe)
    ensures LeadingApostrophes(a + t) == |a|
  {
    if a != [] {
      assert (a + t)[1..] == a[1..] + t;
      LeadingApostrophesOf(a[1..], t);
    }
  }

  lemma {:induction false} TrailingApostrophesOf(t: string, b: string)
    requires AllApostrophes(b) && (t == [] || t[|t| - 1] != Apostrophe)
    ensures TrailingApostrophes(t + b) == |b|
  {
    if b != [] {
      assert (t + b)[|t + b| - 1] == b[|b| - 1] == Apostrophe;
      assert (t + b)[..|t + b| - 1] == t + b[..|b| - 1];
      TrailingApostrophesOf(t, b[..|b| - 1]);
    }
  }

  /**
   Stripping is determined by the shape alone: whatever apostrophe runs
   surround a trimmed middle, the middle is what comes out.
   */
  lemma StripApostrophesUnique(a: string, m: string, b: string)
    requires AllApostrophes(a) && AllApostrophes(b) && Trimmed(m)
    ensures StripApostrophes(a + m + b) == m
  {
    var s := a + m + b;
    if m == [] {
      assert s == (a + b) + [];
      LeadingApostrophesOf(a + b, []);
      assert s[|a + b|..] == [];
    } else {
      assert s == a + (m + b);
      LeadingApostrophesOf(a, m + b);
      assert s[|a|..] == m + b;
      TrailingApostrophesOf(m, b);
    }
  }

  /** Stripping twice is stripping once. */
  lemma StripApostrophesIdempotent(s: string)
    ensures StripApostrophes(StripApostrophes(s)) == StripApostrophes(s)
  {
    var r := StripApostrophes(s);
    assert r == [] + r + [];
    StripApostrophesUnique([], r, []);
  }

  /** Why a run stopped without writing: the lookup failed, or `strftime` refused the clock. */
  datatype RunError = LookupFailed(lookup: LookupError) | TimeFailed(time: TimeError)

  /**
   One run of the recorder: the lookup of the stripped username in the
   dump's lines, then, only when it succeeds, the append of the found record
   at clock `c`. The time is formatted before the file is touched, so a
   failed lookup or a year `strftime` refuses leaves the history file as it
   was.
   */
  function RecordStats(lines: seq<string>, username: string, file: File, c: Clock): (r: Result<File, RunError>)
    requires IsDateTime(c)
    ensures r.Success? <==> Find(lines, StripApostrophes(username)).Success? && Valid(c)
    ensures Find(lines, StripApostrophes(username)).Failure?
            ==> r == Failure(LookupFailed(Find(lines, StripApostrophes(username)).error))
    ensures Find(lines, StripApostrophes(username)).Success? && c.year < 1900
            ==> r == Failure(TimeFailed(YearBefore1900(c.year)))
    ensures r.Success? ==> |r.value| == if file == [] then 2 else |file| + 1
    ensures r.Success? && file != [] ==> r.value[..|file|] == file
    ensures r.Success? && file == [] ==> r.value[0] == Header
  {
    match Find(lines, StripApostrophes(username))
    case Failure(e) => Failure(LookupFailed(e))
    case Success(rec) =>
      match Strftime(c)
      case Failure(t) => Failure(TimeFailed(t))
      case Success(_) => Success(Append(file, rec, c))
  }

  /**
   The row a successful run adds carries the formatted time and the fields
   of the first decisive line of the dump, whose first token is the
   stripped username.
   */
  lemma RecordStatsRow(lines: seq<string>, username: string, file: File, c: Clock)
    requires IsDateTime(c) && RecordStats(lines, username, file, c).Success?
    ensures var f := RecordStats(lines, username, file, c).value;
            var row := f[|f| - 1];
            row[0] == FormatTime(c) && row[1] == StripApostrophes(username) &&
            exists k :: FirstDecisive(lines, StripApostrophes(username), PreambleLength, k) && row[1..] == Split(lines[k])
  {
    var target := StripApostrophes(username);
    var rec := Find(lines, target).value;
    FindSuccess(lines, target, rec);
    var k :| FirstDecisive(lines, target, PreambleLength, k) && Split(lines[k]) == Fields(rec);
    assert DataRow(rec, c)[1..] == Fields(rec);
  }

  /** Quoting the username on the command line does not change the run. */
  lemma RecordStatsQuoted(lines: seq<string>, username: string, file: File, c: Clock)
    requires IsDateTime(c) && Trimmed(username)
    ensures RecordStats(lines, [Apostrophe] + username + [Apostrophe], file, c)
         == RecordStats(lines, username, file, c)
  {
    StripApostrophesUnique([Apostrophe], username, [Apostrophe]);
    assert username == [] + username + [];
    StripApostrophesUnique([], username, []);
  }
}
