/**
 Python 2's argument-less `str.split()`: the string is cut at runs of
 whitespace, and leading and trailing whitespace produce no empty tokens.
 The leaderboard dump is bytes, so "whitespace" is the C `isspace` set:
 space, tab, line feed, vertical tab, form feed and carriage return.
 */
module Whitespace {

  /** Space, or one of the control characters 9 (tab) through 13 (carriage return). */
  predicate IsSpace(c: char) {
    c == ' ' || '\t' <= c <= '\r'
  }

  predicate AllSpace(s: string) {
    forall i :: 0 <= i < |s| ==> IsSpace(s[i])
  }

  predicate NoSpace(s: string) {
    forall i :: 0 <= i < |s| ==> !IsSpace(s[i])
  }

  /** What `split()` can produce: a non-empty run of non-whitespace characters. */
  predicate IsToken(s: string) {
    |s| > 0 && NoSpace(s)
  }

  /** Length of the longest all-whitespace prefix of `s`. */
  function SpaceSpan(s: string): (n: nat)
    ensures n <= |s|
    ensures forall i :: 0 <= i < n ==> IsSpace(s[i])
    ensures n == |s| || !IsSpace(s[n])
  {
    if s == [] || !IsSpace(s[0]) then 0 else 1 + SpaceSpan(s[1..])
  }

  /** Length of the longest whitespace-free prefix of `s`. */
  function WordSpan(s: string): (n: nat)
    ensures n <= |s|
    ensures forall i :: 0 <= i < n ==> !IsSpace(s[i])
    ensures n == |s| || IsSpace(s[n])
  {
    if s == [] || IsSpace(s[0]) then 0 else 1 + WordSpan(s[1..])
  }

  /** `s.split()`: skip leading whitespace, take the next word, repeat. */
  function Split(s: string): (ts: seq<string>)
    ensures forall i :: 0 <= i < |ts| ==> IsToken(ts[i])
    ensures s == [] ==> ts == []
    decreases |s|
  {
    var a := SpaceSpan(s);
    if a == |s| then []
    else
      var rest := s[a..];
      var b := WordSpan(rest);
      [rest[..b]] + Split(rest[b..])
  }

  /** The string made of `gaps[0]`, `ts[0]`, `gaps[1]`, `ts[1]`, ..., `gaps[|ts|]`. */
  function Layout(ts: seq<string>, gaps: seq<string>): string
    requires |gaps| == |ts| + 1
    decreases ts
  {
    if ts == [] then gaps[0] else gaps[0] + ts[0] + Layout(ts[1..], gaps[1..])
  }

  /**
   `gaps` may separate the tokens `ts`: every gap is whitespace, the inner
   gaps are non-empty, and the outer two may be empty.
   */
  predicate Separates(ts: seq<string>, gaps: seq<string>) {
    && |gaps| == |ts| + 1
    && (forall i :: 0 <= i < |ts| ==> IsToken(ts[i]))
    && (forall i :: 0 <= i < |gaps| ==> AllSpace(gaps[i]))
    && (forall i :: 0 < i < |ts| ==> gaps[i] != [])
  }

  /** The two span functions are pinned down by their contracts. */
  lemma SpaceSpanUnique(s: string, n: nat)
    requires n <= |s|
    requires forall i :: 0 <= i < n ==> IsSpace(s[i])
    requires n == |s| || !IsSpace(s[n])
    ensures SpaceSpan(s) == n
  {
  }

  lemma WordSpanUnique(s: string, n: nat)
    requires n <= |s|
    requires forall i :: 0 <= i < n ==> !IsSpace(s[i])
    requires n == |s| || IsSpace(s[n])
    ensures WordSpan(s) == n
  {
  }

  lemma SpaceSpanAppend(a: string, b: string)
    requires AllSpace(a)
    ensures SpaceSpan(a + b) == |a| + SpaceSpan(b)
  {
    var ab := a + b;
    var n := |a| + SpaceSpan(b);
    forall i | 0 <= i < n ensures IsSpace(ab[i]) {
      if i < |a| {
        assert ab[i] == a[i];
      } else {
        assert ab[i] == b[i - |a|];
      }
    }
    if n < |ab| {
      assert ab[n] == b[SpaceSpan(b)];
    }
    SpaceSpanUnique(ab, n);
  }

  lemma WordSpanAppend(a: string, b: string)
    requires NoSpace(a)
    requires b == [] || IsSpace(b[0])
    ensures WordSpan(a + b) == |a|
  {
    var ab := a + b;
    forall i | 0 <= i < |a| ensures !IsSpace(ab[i]) {
      assert ab[i] == a[i];
    }
    if |a| < |ab| {
      assert ab[|a|] == b[0];
    }
    WordSpanUnique(ab, |a|);
  }

  lemma {:induction false} SplitAllSpace(s: string)
    requires AllSpace(s)
    ensures Split(s) == []
  {
    SpaceSpanAppend(s, []);
    assert s + [] == s;
  }

  /** Whitespace, then a word, then whitespace or nothing: the word is the first token. */
  lemma SplitGapWord(gap: string, word: string, tail: string)
    requires AllSpace(gap) && IsToken(word)
    requires tail == [] || IsSpace(tail[0])
    ensures Split(gap + word + tail) == [word] + Split(tail)
  {
    var s := gap + word + tail;
    assert s == gap + (word + tail);
    SpaceSpanAppend(gap, word + tail);
    assert (word + tail)[0] == word[0];
    assert SpaceSpan(word + tail) == 0;
    assert s[|gap|..] == word + tail;
    WordSpanAppend(word, tail);
    assert (word + tail)[..|word|] == word;
    assert (word + tail)[|word|..] == tail;
  }

  lemma SeparatesTail(ts: seq<string>, gaps: seq<string>)
    requires Separates(ts, gaps) && ts != []
    ensures Separates(ts[1..], gaps[1..])
  {
    forall i | 0 < i < |ts[1..]| ensures gaps[1..][i] != [] {
      assert gaps[1..][i] == gaps[i + 1];
    }
  }

  /** A layout whose first gap is whitespace, non-empty before a token, starts with whitespace or is empty. */
  lemma LayoutLeadsWithGap(ts: seq<string>, gaps: seq<string>)
    requires |gaps| == |ts| + 1 && AllSpace(gaps[0])
    requires ts != [] ==> gaps[0] != []
    ensures Layout(ts, gaps) == [] || IsSpace(Layout(ts, gaps)[0])
  {
    if ts != [] {
      assert Layout(ts, gaps) == gaps[0] + (ts[0] + Layout(ts[1..], gaps[1..]));
    }
  }

  /** Splitting a laid-out string gives back exactly its tokens. */
  lemma {:induction false} SplitLayout(ts: seq<string>, gaps: seq<string>)
    requires Separates(ts, gaps)
    ensures Split(Layout(ts, gaps)) == ts
    decreases ts
  {
    if ts == [] {
      SplitAllSpace(gaps[0]);
    } else {
      var tail := Layout(ts[1..], gaps[1..]);
      SeparatesTail(ts, gaps);
      LayoutLeadsWithGap(ts[1..], gaps[1..]);
      SplitGapWord(gaps[0], ts[0], tail);
      SplitLayout(ts[1..], gaps[1..]);
    }
  }

  /** A laid-out string whose first gap is empty starts with its first token. */
  lemma LayoutStartsWithToken(ts: seq<string>, gaps: seq<string>)
    requires Separates(ts, gaps) && ts != [] && gaps[0] == []
    ensures Layout(ts, gaps) != [] && !IsSpace(Layout(ts, gaps)[0])
  {
    var rest := Layout(ts[1..], gaps[1..]);
    assert Layout(ts, gaps) == ts[0] + rest by {
      assert gaps[0] + ts[0] == ts[0];
    }
    assert IsToken(ts[0]);
    assert (ts[0] + rest)[0] == ts[0][0];
  }

  /** One step of `Split`: a leading gap, a word, and the remainder that starts at whitespace. */
  lemma SplitStep(s: string) returns (a: nat, word: string, more: string)
    requires SpaceSpan(s) < |s|
    ensures a == SpaceSpan(s) && AllSpace(s[..a])
    ensures IsToken(word)
    ensures more == [] || IsSpace(more[0])
    ensures s == s[..a] + word + more
    ensures Split(s) == [word] + Split(more)
  {
    a := SpaceSpan(s);
    var rest := s[a..];
    var b := WordSpan(rest);
    assert b > 0 by {
      assert rest[0] == s[a];
    }
    word := rest[..b];
    more := rest[b..];
    assert NoSpace(word) by {
      forall i | 0 <= i < |word| ensures !IsSpace(word[i]) {
        assert word[i] == rest[i];
      }
    }
    assert AllSpace(s[..a]) by {
      forall i | 0 <= i < a ensures IsSpace(s[..a][i]) {
        assert s[..a][i] == s[i];
      }
    }
    assert more == [] || IsSpace(more[0]) by {
      if more != [] {
        assert more[0] == rest[b];
      }
    }
    assert s == s[..a] + word + more by {
      assert s[..a] + word == s[..a + b];
      assert more == s[a + b..];
    }
  }

  /** A leading gap and word put in front of the layout of the rest. */
  lemma LayoutCons(s: string, a: nat, word: string, more: string, inner: seq<string>)
    requires a <= |s| && AllSpace(s[..a]) && IsToken(word)
    requires more == [] || IsSpace(more[0])
    requires s == s[..a] + word + more
    requires Split(s) == [word] + Split(more)
    requires Separates(Split(more), inner) && Layout(Split(more), inner) == more
    ensures Separates(Split(s), [s[..a]] + inner)
    ensures Layout(Split(s), [s[..a]] + inner) == s
  {
    var ts, gaps := Split(s), [s[..a]] + inner;
    assert Layout(ts, gaps) == s by {
      assert ts[0] == word && ts[1..] == Split(more);
      assert gaps[0] == s[..a] && gaps[1..] == inner;
    }
    assert ts[1..] == Split(more) && gaps[1..] == inner;
    if |ts| > 1 && inner[0] == [] {
      LayoutStartsWithToken(Split(more), inner);
      assert false;
    }
    forall i | 0 < i < |gaps| ensures AllSpace(gaps[i]) {
      assert gaps[i] == inner[i - 1];
    }
    forall i | 0 < i < |ts| ensures gaps[i] != [] {
      assert gaps[i] == inner[i - 1];
    }
  }

  /** Every string is the layout of its own tokens, with whitespace gaps between them. */
  lemma {:induction false} LayoutOfSplit(s: string) returns (gaps: seq<string>)
    ensures Separates(Split(s), gaps)
    ensures Layout(Split(s), gaps) == s
    decreases |s|
  {
    if SpaceSpan(s) == |s| {
      gaps := [s];
      assert AllSpace(s);
    } else {
      var a, word, more := SplitStep(s);
      var inner := LayoutOfSplit(more);
      LayoutCons(s, a, word, more, inner);
      gaps := [s[..a]] + inner;
    }
  }

  /** `Split` is the one and only way to read `s` as whitespace-separated tokens. */
  lemma SplitUnique(s: string, ts: seq<string>, gaps: seq<string>)
    requires Separates(ts, gaps) && Layout(ts, gaps) == s
    ensures Split(s) == ts
  {
    SplitLayout(ts, gaps);
  }
}
