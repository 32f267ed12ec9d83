/**
 Python 2's `csv` writer in its default "excel" dialect: fields joined by
 commas, minimal quoting (a field is quoted when it holds the delimiter,
 the quote character or a line-terminator character, and embedded quotes
 are doubled), and every row ended by CR LF. This is the quoting of
 section 2 of RFC 4180, rules 6 and 7.
 */
module Csv {

  const Delimiter: char := ','
  const Quote: char := '"'
  const LineTerminator: string := "\r\n"

  /**
   The writer hands each field over as a C string, so a field ends at its
   first NUL character.
   */
  function CutAtNul(f: string): (g: string)
    ensures |g| <= |f| && g == f[..|g|]
    ensures '\0' !in g
    ensures |g| < |f| ==> f[|g|] == '\0'
  {
    if f == [] || f[0] == '\0' then [] else [f[0]] + CutAtNul(f[1..])
  }

  lemma CutAtNulNoNul(f: string)
    requires '\0' !in f
    ensures CutAtNul(f) == f
  {
  }

  /** Every field cut at its first NUL. */
  function CutAll(fs: seq<string>): (gs: seq<string>)
    ensures |gs| == |fs|
    ensures forall i :: 0 <= i < |fs| ==> gs[i] == CutAtNul(fs[i])
  {
    if fs == [] then [] else [CutAtNul(fs[0])] + CutAll(fs[1..])
  }

  /** The characters that force quoting under the minimal quoting style. */
  predicate NeedsQuotes(g: string) {
    Delimiter in g || Quote in g || '\r' in g || '\n' in g
  }

  /** Every quote character doubled. */
  function Escape(g: string): (e: string)
    ensures |e| >= |g|
  {
    if g == [] then []
    else (if g[0] == Quote then [Quote, Quote] else [g[0]]) + Escape(g[1..])
  }

  /**
   One field as written. A row's only field is quoted even when empty, so
   that the row does not read back as a row with no fields.
   */
  function RenderField(f: string, alone: bool): string {
    var g := CutAtNul(f);
    if NeedsQuotes(g) || (alone && g == []) then [Quote] + Escape(g) + [Quote] else g
  }

  /** A field with nothing to cut or quote is written as it is. */
  lemma RenderPlainField(f: string, alone: bool)
    requires '\0' !in f && !NeedsQuotes(f) && f != []
    ensures RenderField(f, alone) == f
  {
    CutAtNulNoNul(f);
  }

  /** The fields rendered and joined by the delimiter. */
  function JoinFields(fs: seq<string>): string {
    if fs == [] then []
    else if |fs| == 1 then RenderField(fs[0], false)
    else RenderField(fs[0], false) + [Delimiter] + JoinFields(fs[1..])
  }

  /** A row as written, without its terminator. */
  function Line(fs: seq<string>): string {
    if |fs| == 1 then RenderField(fs[0], true) else JoinFields(fs)
  }

  /** `writerow`: the row as written, terminator included. */
  function FormatRow(fs: seq<string>): (s: string)
    ensures |s| >= 2 && s[|s| - 2] == '\r' && s[|s| - 1] == '\n'
  {
    Line(fs) + LineTerminator
  }

  /** The fields joined by the delimiter, exactly as they are. */
  function Joined(fs: seq<string>): string {
    if fs == [] then []
    else if |fs| == 1 then fs[0]
    else fs[0] + [Delimiter] + Joined(fs[1..])
  }

  /** Fields are plain when none holds a NUL, needs quoting, or is empty. */
  predicate AllPlain(fs: seq<string>) {
    forall i :: 0 <= i < |fs| ==> '\0' !in fs[i] && !NeedsQuotes(fs[i]) && fs[i] != []
  }

  /** A row of plain fields is written as the fields joined by commas. */
  lemma {:induction false} LinePlain(fs: seq<string>)
    requires AllPlain(fs)
    ensures Line(fs) == Joined(fs)
    ensures JoinFields(fs) == Joined(fs)
  {
    if fs != [] {
      RenderPlainField(fs[0], false);
      RenderPlainField(fs[0], true);
      if |fs| > 1 {
        assert AllPlain(fs[1..]) by {
          forall i | 0 <= i < |fs| - 1 ensures '\0' !in fs[1..][i] && !NeedsQuotes(fs[1..][i]) && fs[1..][i] != [] {
            assert fs[1..][i] == fs[i + 1];
          }
        }
        LinePlain(fs[1..]);
      }
    }
  }

  /** Several rows written one after the other. */
  function FormatRows(rows: seq<seq<string>>): (s: string)
    ensures s == [] <==> rows == []
  {
    if rows == [] then [] else FormatRows(rows[..|rows| - 1]) + FormatRow(rows[|rows| - 1])
  }

  /** Writing one more row adds its text after what was written before. */
  lemma FormatRowsSnoc(rows: seq<seq<string>>, row: seq<string>)
    ensures FormatRows(rows + [row]) == FormatRows(rows) + FormatRow(row)
  {
    assert (rows + [row])[..|rows|] == rows;
  }

  // A reader for the written form, used to state the round trip.

  /**
   The inside of a quoted field up to its closing quote, reading doubled
   quotes as one, and what follows the closing quote.
   */
  function ReadQuoted(s: string): (r: (string, string))
    ensures |r.1| <= |s|
  {
    if s == [] then ([], [])
    else if s[0] == Quote then
      if |s| >= 2 && s[1] == Quote then
        var (c, rest) := ReadQuoted(s[2..]);
        ([Quote] + c, rest)
      else ([], s[1..])
    else
      var (c, rest) := ReadQuoted(s[1..]);
      ([s[0]] + c, rest)
  }

  /** Length of the longest delimiter-free prefix. */
  function PlainSpan(s: string): (n: nat)
    ensures n <= |s|
    ensures Delimiter !in s[..n]
    ensures n < |s| ==> s[n] == Delimiter
  {
    if s == [] || s[0] == Delimiter then 0 else 1 + PlainSpan(s[1..])
  }

  /** The fields of one written row, terminator removed. */
  function ReadFields(s: string): (fs: seq<string>)
    ensures |fs| >= 1
    decreases |s|
  {
    if s != [] && s[0] == Quote then
      var (c, rest) := ReadQuoted(s[1..]);
      if rest != [] && rest[0] == Delimiter then [c] + ReadFields(rest[1..]) else [c]
    else
      var n := PlainSpan(s);
      if n < |s| then [s[..n]] + ReadFields(s[n + 1..]) else [s]
  }

  lemma {:induction false} ReadQuotedEscape(g: string, rest: string)
    requires rest == [] || rest[0] == Delimiter
    ensures ReadQuoted(Escape(g) + [Quote] + rest) == (g, rest)
    decreases |g|
  {
    var s := Escape(g) + [Quote] + rest;
    if g == [] {
      assert s == [Quote] + rest;
      assert s[1..] == rest;
    } else if g[0] == Quote {
      assert s == [Quote, Quote] + (Escape(g[1..]) + [Quote] + rest);
      assert s[2..] == Escape(g[1..]) + [Quote] + rest;
      ReadQuotedEscape(g[1..], rest);
      assert [Quote] + g[1..] == g;
    } else {
      assert s == [g[0]] + (Escape(g[1..]) + [Quote] + rest);
      assert s[1..] == Escape(g[1..]) + [Quote] + rest;
      ReadQuotedEscape(g[1..], rest);
      assert [g[0]] + g[1..] == g;
    }
  }

  lemma {:induction false} PlainSpanPrefix(g: string, rest: string)
    requires Delimiter !in g
    requires rest == [] || rest[0] == Delimiter
    ensures PlainSpan(g + rest) == |g|
    decreases |g|
  {
    if g == [] {
      assert g + rest == rest;
    } else {
      var s := g + rest;
      assert s[0] == g[0] != Delimiter by { assert g[0] in g; }
      assert s[1..] == g[1..] + rest;
      assert Delimiter !in g[1..] by {
        forall x | x in g[1..] ensures x in g {}
      }
      PlainSpanPrefix(g[1..], rest);
    }
  }

  /** A quoted field ends where its closing quote is followed by a delimiter or by nothing. */
  lemma ReadFieldsQuoted(s: string, c: string, rest: string)
    requires s != [] && s[0] == Quote && ReadQuoted(s[1..]) == (c, rest)
    requires rest == [] || rest[0] == Delimiter
    ensures rest == [] ==> ReadFields(s) == [c]
    ensures rest != [] ==> ReadFields(s) == [c] + ReadFields(rest[1..])
  {
  }

  lemma ReadQuotedField(g: string, tail: string)
    requires tail == [] || tail[0] == Delimiter
    ensures var fs := ReadFields([Quote] + Escape(g) + [Quote] + tail);
            && (tail == [] ==> fs == [g])
            && (tail != [] ==> fs == [g] + ReadFields(tail[1..]))
  {
    var inner := Escape(g) + [Quote] + tail;
    var s := [Quote] + inner;
    assert s == [Quote] + Escape(g) + [Quote] + tail;
    assert s[0] == Quote && s[1..] == inner;
    ReadQuotedEscape(g, tail);
    ReadFieldsQuoted(s, g, tail);
  }

  lemma ReadPlainField(g: string, tail: string)
    requires !NeedsQuotes(g)
    requires tail == [] || tail[0] == Delimiter
    ensures var fs := ReadFields(g + tail);
            && (tail == [] ==> fs == [g])
            && (tail != [] ==> fs == [g] + ReadFields(tail[1..]))
  {
    var s := g + tail;
    PlainSpanPrefix(g, tail);
    if g != [] {
      assert s[0] == g[0] && g[0] in g;
    } else if tail != [] {
      assert s[0] == tail[0];
    }
    assert s[..|g|] == g;
    if tail != [] {
      assert s[|g| + 1..] == tail[1..];
    } else {
      assert s == g;
    }
  }

  /** Reading a field as written, followed by the delimiter or by nothing. */
  lemma ReadRenderedField(f: string, alone: bool, tail: string)
    requires tail == [] || tail[0] == Delimiter
    ensures var fs := ReadFields(RenderField(f, alone) + tail);
            && (tail == [] ==> fs == [CutAtNul(f)])
            && (tail != [] ==> fs == [CutAtNul(f)] + ReadFields(tail[1..]))
  {
    var g := CutAtNul(f);
    if NeedsQuotes(g) || (alone && g == []) {
      ReadQuotedField(g, tail);
    } else {
      ReadPlainField(g, tail);
    }
  }

  /** Reading back the fields joined by `JoinFields` gives the fields, each cut at its first NUL. */
  lemma {:induction false} ReadJoinFields(fs: seq<string>)
    requires |fs| >= 1
    ensures ReadFields(JoinFields(fs)) == CutAll(fs)
    decreases |fs|
  {
    if |fs| == 1 {
      ReadRenderedField(fs[0], false, []);
      assert RenderField(fs[0], false) + [] == JoinFields(fs);
    } else {
      var tail := [Delimiter] + JoinFields(fs[1..]);
      assert JoinFields(fs) == RenderField(fs[0], false) + tail;
      ReadRenderedField(fs[0], false, tail);
      assert tail[1..] == JoinFields(fs[1..]);
      ReadJoinFields(fs[1..]);
      assert CutAll(fs) == [CutAtNul(fs[0])] + CutAll(fs[1..]);
    }
  }

  /**
   Round trip: a row as written reads back as its fields, each cut at its
   first NUL; a row of NUL-free fields reads back unchanged.
   */
  lemma ReadLine(fs: seq<string>)
    requires |fs| >= 1
    ensures ReadFields(Line(fs)) == CutAll(fs)
  {
    if |fs| == 1 {
      ReadRenderedField(fs[0], true, []);
      assert RenderField(fs[0], true) + [] == Line(fs);
    } else {
      ReadJoinFields(fs);
    }
  }
}
