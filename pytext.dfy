/** Python's `str.strip()` (no argument) and `str.splitlines()` (no argument) on
    strings of code points, as the sda-admin gateway uses them to clean up the
    output of the external command. */
module PyText {

  /** The code points for which `c.isspace()` holds: those CPython treats as
      whitespace (bidirectional class WS, B or S, or general category Zs).
      `str.strip()` removes exactly these from both ends. */
  const Whitespace: set<char> := {
    '\t', '\n', '\U{b}', '\U{c}', '\r', '\U{1c}', '\U{1d}', '\U{1e}', '\U{1f}', ' ',
    '\U{85}', '\U{a0}', '\U{1680}',
    '\U{2000}', '\U{2001}', '\U{2002}', '\U{2003}', '\U{2004}', '\U{2005}',
    '\U{2006}', '\U{2007}', '\U{2008}', '\U{2009}', '\U{200a}',
    '\U{2028}', '\U{2029}', '\U{202f}', '\U{205f}', '\U{3000}'
  }

  /** The code points at which `str.splitlines()` ends a line: line feed, line
      tabulation, form feed, carriage return, the file, group and record
      separators, next line, line separator and paragraph separator. ("\r\n"
      is one boundary, see BreakWidth.) */
  const LineBreaks: set<char> := {
    '\n', '\U{b}', '\U{c}', '\r', '\U{1c}', '\U{1d}', '\U{1e}', '\U{85}', '\U{2028}', '\U{2029}'
  }

  predicate IsSpace(c: char) {
    c in Whitespace
  }

  predicate IsLineBreak(c: char) {
    c in LineBreaks
  }

  /** Every line boundary is also whitespace, so stripping a line removes any
      boundary character left at its ends. */
  lemma LineBreakIsSpace(c: char)
    ensures IsLineBreak(c) ==> IsSpace(c)
  {
  }

  /** The string consists of whitespace only (the empty string included). */
  predicate IsBlank(s: string) {
    forall i :: 0 <= i < |s| ==> IsSpace(s[i])
  }

  /** Neither end of the string is whitespace: what `strip()` returns. */
  predicate IsStripped(s: string) {
    s == [] || (!IsSpace(s[0]) && !IsSpace(s[|s| - 1]))
  }

  /** The string has no line boundary in it: what `splitlines()` returns. */
  predicate NoBreak(s: string) {
    forall i :: 0 <= i < |s| ==> !IsLineBreak(s[i])
  }

  /** Index of the first non-whitespace character of `s` at or after `i`, or
      `|s|` when there is none: the forward scan of `str.strip()`. */
  function SkipSpaces(s: string, i: nat): (k: nat)
    requires i <= |s|
    ensures i <= k <= |s|
    ensures forall m :: i <= m < k ==> IsSpace(s[m])
    ensures k < |s| ==> !IsSpace(s[k])
    decreases |s| - i
  {
    if i == |s| || !IsSpace(s[i]) then i else SkipSpaces(s, i + 1)
  }

  /** Index just after the last non-whitespace character of `s[lo..j]`, or `lo`
      when there is none: the backward scan of `str.strip()`. */
  function SkipSpacesBack(s: string, lo: nat, j: nat): (k: nat)
    requires lo <= j <= |s|
    ensures lo <= k <= j
    ensures forall m :: k <= m < j ==> IsSpace(s[m])
    ensures lo < k ==> !IsSpace(s[k - 1])
    decreases j - lo
  {
    if j == lo || !IsSpace(s[j - 1]) then j else SkipSpacesBack(s, lo, j - 1)
  }

  /** `s.strip()`: `s` without its leading and trailing whitespace. The result
      has no whitespace at either end, and it is empty exactly when `s` is
      blank. */
  function Strip(s: string): (r: string)
    ensures IsStripped(r)
    ensures r == [] <==> IsBlank(s)
  {
    var i := SkipSpaces(s, 0);
    var j := SkipSpacesBack(s, i, |s|);
    assert IsBlank(s) ==> i == |s|;
    assert i == j ==> IsBlank(s) by {
      if i == j {
        forall m | 0 <= m < |s| ensures IsSpace(s[m]) {
        }
      }
    }
    s[i..j]
  }

  /** What `strip()` removes is whitespace only: the result is the piece of `s`
      between a blank prefix and a blank suffix. */
  lemma StripIsTrim(s: string)
    ensures exists i :: 0 <= i <= |s| - |Strip(s)| && Strip(s) == s[i..i + |Strip(s)|]
                        && IsBlank(s[..i]) && IsBlank(s[i + |Strip(s)|..])
  {
    var i := SkipSpaces(s, 0);
    var j := SkipSpacesBack(s, i, |s|);
    assert Strip(s) == s[i..j];
    assert IsBlank(s[..i]) by {
      forall m | 0 <= m < i ensures IsSpace(s[..i][m]) {
        assert s[..i][m] == s[m];
      }
    }
    assert IsBlank(s[j..]) by {
      forall m | 0 <= m < |s| - j ensures IsSpace(s[j..][m]) {
        assert s[j..][m] == s[j + m];
      }
    }
  }

  /** A string that is already stripped is left alone: stripping twice is
      stripping once. */
  lemma StripOfStripped(s: string)
    requires IsStripped(s)
    ensures Strip(s) == s
  {
    if s != [] {
      assert SkipSpaces(s, 0) == 0;
      assert SkipSpacesBack(s, 0, |s|) == |s|;
      assert s[0..|s|] == s;
    }
  }

  lemma StripIdempotent(s: string)
    ensures Strip(Strip(s)) == Strip(s)
  {
    StripOfStripped(Strip(s));
  }

  /** Index of the first line boundary of `s` at or after `i`, or `|s|` when
      there is none. */
  function NextBreak(s: string, i: nat): (k: nat)
    requires i <= |s|
    ensures i <= k <= |s|
    ensures k < |s| ==> IsLineBreak(s[k])
    decreases |s| - i
  {
    if i == |s| || IsLineBreak(s[i]) then i else NextBreak(s, i + 1)
  }

  /** The characters the scan passes over before the next boundary are not
      boundaries. */
  lemma {:induction false} NextBreakSkips(s: string, i: nat)
    requires i <= |s|
    ensures forall m :: i <= m < NextBreak(s, i) ==> !IsLineBreak(s[m])
    decreases |s| - i
  {
    if i < |s| && !IsLineBreak(s[i]) {
      NextBreakSkips(s, i + 1);
    }
  }

  /** The scan stops at the first boundary at or after `i`. */
  lemma {:induction false} NextBreakFinds(s: string, i: nat, k: nat)
    requires i <= k < |s| && IsLineBreak(s[k])
    requires forall m :: i <= m < k ==> !IsLineBreak(s[m])
    ensures NextBreak(s, i) == k
    decreases k - i
  {
    if i < k {
      NextBreakFinds(s, i + 1, k);
    }
  }

  /** With no boundary from `i` on, the scan runs to the end. */
  lemma {:induction false} NextBreakNone(s: string, i: nat)
    requires i <= |s|
    requires forall m :: i <= m < |s| ==> !IsLineBreak(s[m])
    ensures NextBreak(s, i) == |s|
    decreases |s| - i
  {
    if i < |s| {
      NextBreakNone(s, i + 1);
    }
  }

  /** Width of the boundary that starts at `s[i]`: "\r\n" is one boundary of two
      characters, every other boundary is one character. */
  function BreakWidth(s: string, i: nat): (w: nat)
    requires i < |s| && IsLineBreak(s[i])
    ensures 1 <= w <= 2 && i + w <= |s|
    ensures w == 2 <==> s[i] == '\r' && i + 1 < |s| && s[i + 1] == '\n'
  {
    if s[i] == '\r' && i + 1 < |s| && s[i + 1] == '\n' then 2 else 1
  }

  /** The lines of `s` from index `i` on: the scan of `str.splitlines()`. Each
      line runs up to the next boundary, and the scan resumes after that
      boundary; a boundary at the very end does not start another line. */
  function LinesFrom(s: string, i: nat): (lines: seq<string>)
    requires i <= |s|
    decreases |s| - i
  {
    if i == |s| then []
    else
      var k := NextBreak(s, i);
      [s[i..k]] + (if k < |s| then LinesFrom(s, k + BreakWidth(s, k)) else [])
  }

  /** `s.splitlines()`: the lines of `s` without their boundaries. The empty
      string has no lines at all. */
  function SplitLines(s: string): (lines: seq<string>)
    ensures lines == [] <==> s == []
  {
    LinesFrom(s, 0)
  }

  lemma {:induction false} LinesFromHaveNoBreaks(s: string, i: nat)
    requires i <= |s|
    ensures forall n :: 0 <= n < |LinesFrom(s, i)| ==> NoBreak(LinesFrom(s, i)[n])
    decreases |s| - i
  {
    if i < |s| {
      var k := NextBreak(s, i);
      ScannedLineHasNoBreak(s, i);
      if k < |s| {
        var next := k + BreakWidth(s, k);
        LinesFromHaveNoBreaks(s, next);
        LinesFromAt(s, i, k, next, s[i..k]);
        ConsNoBreak(LinesFrom(s, i), s[i..k], LinesFrom(s, next));
      } else {
        ConsNoBreak(LinesFrom(s, i), s[i..k], []);
      }
    }
  }

  /** The line the scan takes from `i` holds no line boundary. */
  lemma ScannedLineHasNoBreak(s: string, i: nat)
    requires i <= |s|
    ensures NoBreak(s[i..NextBreak(s, i)])
  {
    var line := s[i..NextBreak(s, i)];
    NextBreakSkips(s, i);
    forall m | 0 <= m < |line| ensures !IsLineBreak(line[m]) {
      assert line[m] == s[i + m];
    }
  }

  /** A line free of boundaries followed by lines free of boundaries. */
  lemma ConsNoBreak(all: seq<string>, line: string, rest: seq<string>)
    requires all == [line] + rest && NoBreak(line)
    requires forall n :: 0 <= n < |rest| ==> NoBreak(rest[n])
    ensures forall n :: 0 <= n < |all| ==> NoBreak(all[n])
  {
    forall n | 0 <= n < |all| ensures NoBreak(all[n]) {
      if n > 0 {
        assert all[n] == rest[n - 1];
      }
    }
  }


  /** No line that `splitlines()` returns contains a boundary. */
  lemma SplitLinesHaveNoBreaks(s: string)
    ensures forall n :: 0 <= n < |SplitLines(s)| ==> NoBreak(SplitLines(s)[n])
  {
    LinesFromHaveNoBreaks(s, 0);
  }

  /** A string with no boundary in it is a single line. */
  lemma SplitLinesOfLine(s: string)
    requires s != [] && NoBreak(s)
    ensures SplitLines(s) == [s]
  {
    NextBreakNone(s, 0);
    assert s[0..|s|] == s;
  }

  /** The lines of a listing written one per line, each followed by "\n". */
  function Terminated(lines: seq<string>): (s: string)
    ensures lines == [] <==> s == []
  {
    if lines == [] then [] else lines[0] + "\n" + Terminated(lines[1..])
  }

  /** One step of the scan: the line up to the boundary at `k`, then the lines
      after that boundary, from `next` on. */
  lemma LinesFromAt(s: string, i: nat, k: nat, next: nat, line: string)
    requires i < |s| && k == NextBreak(s, i) && k < |s|
    requires next == k + BreakWidth(s, k) && line == s[i..k]
    ensures LinesFrom(s, i) == [line] + LinesFrom(s, next)
  {
  }

  /** A line boundary as it stands in a text: one boundary character, or the
      pair "\r\n". */
  predicate IsBoundary(e: string) {
    (|e| == 1 && IsLineBreak(e[0])) || e == "\r\n"
  }

  /** Lines written out one after the other, each followed by its own
      boundary. */
  function Delimited(lines: seq<string>, ends: seq<string>): string
    requires |lines| == |ends|
  {
    if lines == [] then [] else lines[0] + ends[0] + Delimited(lines[1..], ends[1..])
  }

  /** Lines and boundaries that `splitlines()` reads back as they were
      written: no line holds a boundary, and no "\r" ends a line when the
      next line is empty and ends in "\n" (the two would read as one "\r\n"). */
  predicate Separable(lines: seq<string>, ends: seq<string>) {
    && |lines| == |ends|
    && (forall n :: 0 <= n < |lines| ==> NoBreak(lines[n]) && IsBoundary(ends[n]))
    && (forall n :: 0 <= n < |lines| - 1 && ends[n] == "\r" && lines[n + 1] == [] ==> ends[n + 1] != "\n")
  }

  /** The first character of written-out lines: that of the first line, or
      the first character of its boundary when the line is empty. */
  lemma DelimitedFirst(lines: seq<string>, ends: seq<string>)
    requires |lines| == |ends| && lines != [] && IsBoundary(ends[0])
    ensures var s := Delimited(lines, ends);
            s != [] && s[0] == (if lines[0] != [] then lines[0][0] else ends[0][0])
  {
    var s := Delimited(lines, ends);
    assert s == lines[0] + ends[0] + Delimited(lines[1..], ends[1..]);
  }

  /** Where a line, its boundary and the text after them sit in a text that
      holds all three from `i` on. */
  lemma DelimitedPieces(s: string, i: nat, l: string, e: string, tail: string)
    requires i <= |s| && s[i..] == l + e + tail && 1 <= |e|
    ensures var k := i + |l|;
            k + |e| <= |s| && s[i..k] == l && s[k] == e[0] && s[k..] == e + tail
            && s[k + |e|..] == tail
  {
    var k, t := i + |l|, s[i..];
    assert t[..|l|] == l && t[|l|..] == e + tail && t[|l| + |e|..] == tail;
    assert s[i..k] == t[..|l|] && s[k..] == t[|l|..] && s[k + |e|..] == t[|l| + |e|..];
  }

  /** The boundary written after the `j`-th line is the one the scan skips
      there: "\r\n" is read as one boundary, and a lone "\r" is never read
      together with the character after it. */
  lemma DelimitedWidth(s: string, k: nat, lines: seq<string>, ends: seq<string>, j: nat)
    requires Separable(lines, ends) && j < |lines| && k < |s|
    requires s[k..] == ends[j] + Delimited(lines[j + 1..], ends[j + 1..])
    ensures IsLineBreak(s[k]) && BreakWidth(s, k) == |ends[j]|
  {
    var e, tail := ends[j], Delimited(lines[j + 1..], ends[j + 1..]);
    assert s[k] == e[0];
    if e == "\r\n" {
      assert s[k + 1] == s[k..][1] == e[1];
    } else if e[0] == '\r' && k + 1 < |s| {
      assert tail != [] && s[k + 1] == tail[0];
      var rl, re := lines[j + 1..], ends[j + 1..];
      assert rl[0] == lines[j + 1] && re[0] == ends[j + 1];
      DelimitedFirst(rl, re);
    }
  }

  /** The scan from `i` of a text that holds from there the lines of `lines`
      from the `j`-th on, each followed by its boundary, returns the `j`-th
      line and resumes at `next`, where the following lines start. */
  lemma DelimitedHead(s: string, i: nat, lines: seq<string>, ends: seq<string>, j: nat) returns (next: nat)
    requires Separable(lines, ends) && i <= |s| && j < |lines|
    requires s[i..] == Delimited(lines[j..], ends[j..])
    ensures i < next <= |s| && s[next..] == Delimited(lines[j + 1..], ends[j + 1..])
    ensures LinesFrom(s, next) == lines[j + 1..] ==> LinesFrom(s, i) == lines[j..]
  {
    var l, e := lines[j], ends[j];
    var tail := Delimited(lines[j + 1..], ends[j + 1..]);
    var rl, re := lines[j..], ends[j..];
    assert rl[0] == l && re[0] == e && rl[1..] == lines[j + 1..] && re[1..] == ends[j + 1..];
    var k := i + |l|;
    DelimitedPieces(s, i, l, e, tail);
    forall m | i <= m < k ensures !IsLineBreak(s[m]) {
      assert s[m] == l[m - i];
    }
    DelimitedWidth(s, k, lines, ends, j);
    NextBreakFinds(s, i, k);
    next := k + |e|;
    LinesFromAt(s, i, k, next, l);
    if LinesFrom(s, next) == lines[j + 1..] {
      ConsParts(LinesFrom(s, i), l, LinesFrom(s, next), rl);
    }
  }

  /** A list that is its first element followed by the rest of `lines` is `lines`. */
  lemma ConsParts(all: seq<string>, l: string, rest: seq<string>, lines: seq<string>)
    requires all == [l] + rest && lines != [] && l == lines[0] && rest == lines[1..]
    ensures all == lines
  {
  }

  /** Splitting, from index `i`, a text that holds from there the lines of
      `lines` from the `j`-th on, each followed by its boundary, gives back
      those lines. */
  lemma {:induction false} LinesFromDelimited(s: string, i: nat, lines: seq<string>, ends: seq<string>, j: nat)
    requires Separable(lines, ends) && i <= |s| && j <= |lines|
    requires s[i..] == Delimited(lines[j..], ends[j..])
    ensures LinesFrom(s, i) == lines[j..]
    decreases |lines| - j
  {
    if j < |lines| {
      var next := DelimitedHead(s, i, lines, ends, j);
      LinesFromDelimited(s, next, lines, ends, j + 1);
    } else {
      assert |s[i..]| == 0 && lines[j..] == [];
    }
  }

  /** `splitlines()` reads back lines written each with its own boundary,
      "\r\n" included, empty lines included, in order. */
  lemma SplitLinesOfDelimited(lines: seq<string>, ends: seq<string>)
    requires Separable(lines, ends)
    ensures SplitLines(Delimited(lines, ends)) == lines
  {
    var s := Delimited(lines, ends);
    assert s[0..] == s && lines[0..] == lines && ends[0..] == ends;
    LinesFromDelimited(s, 0, lines, ends, 0);
  }

  /** `n` boundaries "\n". */
  function Newlines(n: nat): (ends: seq<string>)
    ensures |ends| == n && forall k :: 0 <= k < n ==> ends[k] == "\n"
  {
    seq(n, _ => "\n")
  }

  /** Lines each followed by "\n" are lines each followed by their own
      boundary, all of them "\n". */
  lemma {:induction false} TerminatedIsDelimited(lines: seq<string>)
    ensures Terminated(lines) == Delimited(lines, Newlines(|lines|))
  {
    if lines != [] {
      var ends := Newlines(|lines|);
      assert ends[0] == "\n" && ends[1..] == Newlines(|lines| - 1);
      TerminatedIsDelimited(lines[1..]);
    }
  }

  /** Splitting a listing written one line per entry gives back the entries,
      empty ones included. */
  lemma SplitLinesOfTerminated(lines: seq<string>)
    requires forall n :: 0 <= n < |lines| ==> NoBreak(lines[n])
    ensures SplitLines(Terminated(lines)) == lines
  {
    TerminatedIsDelimited(lines);
    SplitLinesOfDelimited(lines, Newlines(|lines|));
  }

  /** Stripping a text that is clean at both ends and followed by one "\n"
      removes just that "\n" (an empty text stays empty). */
  lemma StripFinalNewline(t: string)
    requires IsStripped(t)
    ensures Strip(t + "\n") == t
  {
    var out := t + "\n";
    if t == [] {
      assert IsBlank(out);
    } else {
      assert SkipSpaces(out, 0) == 0;
      assert SkipSpacesBack(out, 0, |out|) == |t|;
      assert out[0..|t|] == t;
    }
  }

  /** One "\n" added after a last line that does not end in a boundary adds no
      line: `t` is `s` followed by "\n", and from any `i` inside `s` both
      scans return the same lines. */
  lemma {:induction false} LinesFromFinalNewline(s: string, t: string, i: nat)
    requires |t| == |s| + 1 && t[|s|] == '\n' && forall m :: 0 <= m < |s| ==> t[m] == s[m]
    requires i < |s| && !IsLineBreak(s[|s| - 1])
    ensures LinesFrom(t, i) == LinesFrom(s, i)
    decreases |s| - i
  {
    var k := FinalNewlineScan(s, t, i);
    if k < |s| {
      var next := k + BreakWidth(s, k);
      LinesFromFinalNewline(s, t, next);
      ShiftedStep(t, i, k, next, s, i, k, next);
    } else {
      LastLineBeforeNewline(s, t, i);
    }
  }

  /** The scans of `s` and of `s` followed by "\n" from the same `i` inside `s`
      stop at the same `k` and take the same line; when `k` is inside `s`, both
      skip a boundary of the same width and resume inside `s`. */
  lemma FinalNewlineScan(s: string, t: string, i: nat) returns (k: nat)
    requires |t| == |s| + 1 && t[|s|] == '\n' && forall m :: 0 <= m < |s| ==> t[m] == s[m]
    requires i < |s| && !IsLineBreak(s[|s| - 1])
    ensures k == NextBreak(s, i) == NextBreak(t, i) && t[i..k] == s[i..k]
    ensures k < |s| ==> BreakWidth(t, k) == BreakWidth(s, k) && k + BreakWidth(s, k) < |s|
  {
    k := NextBreak(s, i);
    NextBreakSkips(s, i);
    NextBreakFinds(t, i, k);
    assert t[i..k] == s[i..k];
  }

  /** The last line of `s`, with no boundary after it, is also the last line of
      `s` followed by "\n". */
  lemma LastLineBeforeNewline(s: string, t: string, i: nat)
    requires |t| == |s| + 1 && t[|s|] == '\n' && i < |s|
    requires NextBreak(s, i) == NextBreak(t, i) == |s| && t[i..|s|] == s[i..|s|]
    ensures LinesFrom(t, i) == LinesFrom(s, i)
  {
    LinesFromAt(t, i, |s|, |s| + 1, t[i..|s|]);
    assert LinesFrom(t, |s| + 1) == [];
  }

  /** Two lists with the same first element and equal rests are equal. */
  lemma SameTail(a: seq<string>, b: seq<string>, l: string, ra: seq<string>, rb: seq<string>)
    requires a == [l] + ra && b == [l] + rb && ra == rb
    ensures a == b
  {
  }

  /** `s.splitlines()` does not change when one "\n" is added after a last
      character that is not a boundary. */
  lemma SplitLinesFinalNewline(s: string)
    requires s != [] && !IsLineBreak(s[|s| - 1])
    ensures SplitLines(s + "\n") == SplitLines(s)
  {
    LinesFromFinalNewline(s, s + "\n", 0);
  }

  /** The last two characters of a listing written one line per entry, when
      its last entry is not empty: that entry's last character, then "\n". */
  lemma {:induction false} TerminatedEnd(lines: seq<string>)
    requires lines != [] && lines[|lines| - 1] != []
    ensures var s, last := Terminated(lines), lines[|lines| - 1];
            |s| >= 2 && s[|s| - 1] == '\n' && s[|s| - 2] == last[|last| - 1]
  {
    var s, rest := Terminated(lines), Terminated(lines[1..]);
    assert s == lines[0] + "\n" + rest;
    if |lines| > 1 {
      assert lines[1..][|lines[1..]| - 1] == lines[|lines| - 1];
      TerminatedEnd(lines[1..]);
    }
  }

  /** What the listing endpoints split: a listing written one line per entry
      and then stripped. When the first entry starts and the last entry ends
      with a character that is not whitespace, stripping removes only the
      final "\n" and splitting gives back every entry, empty ones included. */
  lemma SplitLinesOfStrippedTerminated(lines: seq<string>)
    requires forall n :: 0 <= n < |lines| ==> NoBreak(lines[n])
    requires lines != [] && lines[0] != [] && !IsSpace(lines[0][0])
    requires var last := lines[|lines| - 1]; last != [] && !IsSpace(last[|last| - 1])
    ensures SplitLines(Strip(Terminated(lines))) == lines
  {
    var s := Terminated(lines);
    assert s == lines[0] + "\n" + Terminated(lines[1..]);
    TerminatedEnd(lines);
    var body := s[..|s| - 1];
    assert s == body + "\n";
    assert body[0] == s[0] && body[|body| - 1] == s[|s| - 2];
    StripFinalNewline(body);
    LineBreakIsSpace(body[|body| - 1]);
    SplitLinesFinalNewline(body);
    SplitLinesOfTerminated(lines);
  }

  /** `[line.strip() for line in lines if line.strip()]`: the stripped lines,
      blank ones dropped, in their original order. */
  function StrippedNonBlank(lines: seq<string>): (r: seq<string>)
    ensures |r| <= |lines|
    ensures forall k :: 0 <= k < |r| ==> r[k] != [] && IsStripped(r[k])
  {
    if lines == [] then []
    else
      var t := Strip(lines[0]);
      (if t == [] then [] else [t]) + StrippedNonBlank(lines[1..])
  }

  /** Reference definition of the lines the comprehension keeps: the indices, in
      increasing order, of the lines at or after `lo` that are not blank. */
  function NonBlankFrom(lines: seq<string>, lo: nat): (idx: seq<nat>)
    requires lo <= |lines|
    ensures forall k :: 0 <= k < |idx| ==> lo <= idx[k] < |lines| && !IsBlank(lines[idx[k]])
    ensures forall k, m :: 0 <= k < m < |idx| ==> idx[k] < idx[m]
    ensures forall i :: lo <= i < |lines| && !IsBlank(lines[i]) ==> i in idx
    decreases |lines| - lo
  {
    if lo == |lines| then []
    else
      var rest := NonBlankFrom(lines, lo + 1);
      if IsBlank(lines[lo]) then rest else [lo] + rest
  }

  /** The comprehension keeps, in order, exactly the stripped forms of the
      non-blank lines from `lo` on. */
  lemma {:induction false} StrippedNonBlankFrom(lines: seq<string>, lo: nat)
    requires lo <= |lines|
    ensures var idx := NonBlankFrom(lines, lo);
            var r := StrippedNonBlank(lines[lo..]);
            |r| == |idx| && forall k :: 0 <= k < |r| ==> r[k] == Strip(lines[idx[k]])
    decreases |lines| - lo
  {
    if lo < |lines| {
      StrippedNonBlankFrom(lines, lo + 1);
      var tail := lines[lo..];
      assert tail[1..] == lines[lo + 1..];
      var t := Strip(lines[lo]);
      var idx := NonBlankFrom(lines, lo + 1);
      var r := StrippedNonBlank(lines[lo + 1..]);
      assert StrippedNonBlank(tail) == (if t == [] then [] else [t]) + r;
      if t != [] {
        assert NonBlankFrom(lines, lo) == [lo] + idx;
        PrependEntry(lines, lo, idx, r);
      }
    }
  }
  /** Putting the stripped `lo`-th line in front of the stripped lines listed
      by `idx` keeps entries and indices paired. */
  lemma PrependEntry(lines: seq<string>, lo: nat, idx: seq<nat>, r: seq<string>)
    requires lo < |lines| && |r| == |idx|
    requires forall k :: 0 <= k < |idx| ==> idx[k] < |lines|
    requires forall k :: 0 <= k < |r| ==> r[k] == Strip(lines[idx[k]])
    ensures var idx', r' := [lo] + idx, [Strip(lines[lo])] + r;
            forall k :: 0 <= k < |r'| ==> idx'[k] < |lines| && r'[k] == Strip(lines[idx'[k]])
  {
    var idx', r' := [lo] + idx, [Strip(lines[lo])] + r;
    forall k | 0 <= k < |r'| ensures idx'[k] < |lines| && r'[k] == Strip(lines[idx'[k]]) {
      if k > 0 {
        assert r'[k] == r[k - 1] && idx'[k] == idx[k - 1];
      }
    }
  }


  /** A sequence of entries that are already stripped and non-empty passes the
      comprehension unchanged. */
  lemma {:induction false} StrippedNonBlankKeepsClean(lines: seq<string>)
    requires forall k :: 0 <= k < |lines| ==> lines[k] != [] && IsStripped(lines[k])
    ensures StrippedNonBlank(lines) == lines
  {
    if lines != [] {
      StripOfStripped(lines[0]);
      StrippedNonBlankKeepsClean(lines[1..]);
    }
  }

  /** Whitespace followed by whitespace is whitespace. */
  lemma BlankConcat(a: string, b: string)
    requires IsBlank(a) && IsBlank(b)
    ensures IsBlank(a + b)
  {
    forall m | |a| <= m < |a + b| ensures IsSpace((a + b)[m]) {
      assert (a + b)[m] == b[m - |a|];
    }
  }

  /** The forward scan of `strip()` stops at the first non-whitespace
      character. */
  lemma {:induction false} SkipSpacesTo(s: string, i: nat, k: nat)
    requires i <= k < |s| && !IsSpace(s[k])
    requires forall m :: i <= m < k ==> IsSpace(s[m])
    ensures SkipSpaces(s, i) == k
    decreases k - i
  {
    if i < k {
      SkipSpacesTo(s, i + 1, k);
    }
  }

  /** The backward scan of `strip()` stops just after the last
      non-whitespace character. */
  lemma {:induction false} SkipSpacesBackTo(s: string, lo: nat, j: nat, k: nat)
    requires lo < k <= j <= |s| && !IsSpace(s[k - 1])
    requires forall m :: k <= m < j ==> IsSpace(s[m])
    ensures SkipSpacesBack(s, lo, j) == k
    decreases j - k
  {
    if k < j {
      SkipSpacesBackTo(s, lo, j - 1, k);
    }
  }

  /** A stripped text padded with whitespace on both sides strips back to
      itself. */
  lemma StripOfPadded(p: string, m: string, q: string)
    requires IsBlank(p) && IsBlank(q) && IsStripped(m)
    ensures Strip(p + m + q) == m
  {
    var s := p + m + q;
    if m == [] {
      assert s == p + q;
      BlankConcat(p, q);
    } else {
      var a, b := |p|, |p| + |m|;
      assert s[a] == m[0] && s[b - 1] == m[|m| - 1];
      forall n | 0 <= n < a ensures IsSpace(s[n]) {
        assert s[n] == p[n];
      }
      forall n | b <= n < |s| ensures IsSpace(s[n]) {
        assert s[n] == q[n - b];
      }
      SkipSpacesTo(s, 0, a);
      SkipSpacesBackTo(s, a, |s|, b);
      assert s[a..b] == m;
    }
  }

  /** Whitespace added at either end of a text does not change what `strip()`
      returns. */
  lemma StripPadded(p: string, x: string, q: string)
    requires IsBlank(p) && IsBlank(q)
    ensures Strip(p + x + q) == Strip(x)
  {
    var i, j := StripBounds(x);
    var a, m, b := x[..i], x[i..j], x[j..];
    BlankConcat(p, a);
    BlankConcat(b, q);
    Regroup(p, a, m, b, q);
    StripOfPadded(p + a, m, b + q);
  }

  /** Where `strip()` cuts: `x` is a blank prefix, the stripped text and a
      blank suffix. */
  lemma StripBounds(x: string) returns (i: nat, j: nat)
    ensures i <= j <= |x| && Strip(x) == x[i..j] && x == x[..i] + x[i..j] + x[j..]
    ensures IsBlank(x[..i]) && IsBlank(x[j..])
  {
    i := SkipSpaces(x, 0);
    j := SkipSpacesBack(x, i, |x|);
    assert IsBlank(x[..i]);
    assert IsBlank(x[j..]) by {
      forall n | 0 <= n < |x| - j ensures IsSpace(x[j..][n]) {
        assert x[j..][n] == x[j + n];
      }
    }
    assert x == x[..i] + x[i..j] + x[j..];
  }

  /** Padding a text made of three parts regroups the padding with the outer
      parts. */
  lemma Regroup(p: string, a: string, m: string, b: string, q: string)
    ensures p + (a + m + b) + q == (p + a) + m + (b + q)
  {
  }

  /** The comprehension on a line followed by more lines. */
  lemma StrippedNonBlankCons(l: string, rest: seq<string>)
    ensures StrippedNonBlank([l] + rest)
            == (if Strip(l) == [] then [] else [Strip(l)]) + StrippedNonBlank(rest)
  {
    assert ([l] + rest)[1..] == rest;
  }

  /** The scan on a last line, one that no boundary ends. */
  lemma LinesFromLast(s: string, i: nat)
    requires i < |s| && NextBreak(s, i) == |s|
    ensures LinesFrom(s, i) == [s[i..]]
  {
    assert s[i..NextBreak(s, i)] == s[i..];
  }

  /** Two lists whose first elements strip alike and whose rests keep the same
      entries keep the same entries. */
  lemma SameListed(a: seq<string>, b: seq<string>, la: string, lb: string, ra: seq<string>, rb: seq<string>)
    requires a == [la] + ra && b == [lb] + rb && Strip(la) == Strip(lb)
    requires StrippedNonBlank(ra) == StrippedNonBlank(rb)
    ensures StrippedNonBlank(a) == StrippedNonBlank(b)
  {
    StrippedNonBlankCons(la, ra);
    StrippedNonBlankCons(lb, rb);
  }

  /** A blank line in front of more lines adds no entry. */
  lemma SkipBlankLine(a: seq<string>, l: string, rest: seq<string>)
    requires a == [l] + rest && IsBlank(l)
    ensures StrippedNonBlank(a) == StrippedNonBlank(rest)
  {
    StrippedNonBlankCons(l, rest);
  }

  /** The lines of a text that is whitespace from `i` on give no entry. */
  lemma {:induction false} BlankLines(s: string, i: nat)
    requires i <= |s| && forall m :: i <= m < |s| ==> IsSpace(s[m])
    ensures StrippedNonBlank(LinesFrom(s, i)) == []
    decreases |s| - i
  {
    if i < |s| {
      var k := NextBreak(s, i);
      var line := s[i..k];
      assert IsBlank(line) by {
        forall m | 0 <= m < |line| ensures IsSpace(line[m]) {
          assert line[m] == s[i + m];
        }
      }
      if k < |s| {
        var next := k + BreakWidth(s, k);
        BlankLines(s, next);
        LinesFromAt(s, i, k, next, line);
        SkipBlankLine(LinesFrom(s, i), line, LinesFrom(s, next));
      } else {
        LinesFromLast(s, i);
        SkipBlankLine(LinesFrom(s, i), line, []);
      }
    }
  }

  /** Leading whitespace gives no entry: from any `i` up to the first
      non-whitespace character at `a`, the scan keeps the same entries as
      from `a`. */
  lemma {:induction false} ListedFromFirst(s: string, a: nat, i: nat)
    requires i <= a <= |s| && (a == |s| || !IsSpace(s[a]))
    requires forall m :: i <= m < a ==> IsSpace(s[m])
    ensures StrippedNonBlank(LinesFrom(s, i)) == StrippedNonBlank(LinesFrom(s, a))
    decreases a - i
  {
    if i < a {
      var k := NextBreak(s, i);
      NextBreakSkips(s, i);
      if k < a {
        var next := LeadingBreak(s, a, i, k);
        ListedFromFirst(s, a, next);
        LinesFromAt(s, i, k, next, s[i..k]);
        SkipBlankLine(LinesFrom(s, i), s[i..k], LinesFrom(s, next));
      } else if a == |s| {
        BlankLines(s, i);
      } else {
        FirstLineFrom(s, a, i, k);
      }
    }
  }

  /** A boundary inside leading whitespace ends a blank line, and the scan
      resumes no later than the first non-whitespace character. */
  lemma LeadingBreak(s: string, a: nat, i: nat, k: nat) returns (next: nat)
    requires i <= k < a <= |s| && (a == |s| || !IsSpace(s[a]))
    requires forall m :: i <= m < a ==> IsSpace(s[m])
    requires k == NextBreak(s, i)
    ensures next == k + BreakWidth(s, k) && next <= a && IsBlank(s[i..k])
  {
    next := k + BreakWidth(s, k);
    assert IsBlank(s[i..k]) by {
      forall m | 0 <= m < k - i ensures IsSpace(s[i..k][m]) {
        assert s[i..k][m] == s[i + m];
      }
    }
  }

  /** The line that holds the first non-whitespace character at `a` strips
      alike whether the scan starts at `a` or in the whitespace before it. */
  lemma FirstLineFrom(s: string, a: nat, i: nat, k: nat)
    requires i < a < k <= |s| || (i < a == k < |s|)
    requires a < |s| && !IsSpace(s[a]) && k == NextBreak(s, i)
    requires forall m :: i <= m < a ==> IsSpace(s[m])
    requires forall m :: i <= m < k ==> !IsLineBreak(s[m])
    ensures StrippedNonBlank(LinesFrom(s, i)) == StrippedNonBlank(LinesFrom(s, a))
  {
    LineBreakIsSpace(s[a]);
    assert a < k;
    if k < |s| {
      NextBreakFinds(s, a, k);
    } else {
      NextBreakNone(s, a);
    }
    assert IsBlank(s[i..a]) by {
      forall m | 0 <= m < a - i ensures IsSpace(s[i..a][m]) {
        assert s[i..a][m] == s[i + m];
      }
    }
    assert s[i..k] == s[i..a] + s[a..k] + [];
    StripPadded(s[i..a], s[a..k], []);
    if k < |s| {
      var next := k + BreakWidth(s, k);
      LinesFromAt(s, i, k, next, s[i..k]);
      LinesFromAt(s, a, k, next, s[a..k]);
      SameListed(LinesFrom(s, i), LinesFrom(s, a), s[i..k], s[a..k], LinesFrom(s, next), LinesFrom(s, next));
    } else {
      LinesFromLast(s, i);
      LinesFromLast(s, a);
      SameListed(LinesFrom(s, i), LinesFrom(s, a), s[i..k], s[a..k], [], []);
    }
  }

  /** Trailing whitespace gives no entry: cutting the text at `b`, after its
      last non-whitespace character, keeps the entries the scan from any
      `i <= b` lists. */
  lemma {:induction false} ListedAfterCut(s: string, b: nat, i: nat)
    requires i <= b <= |s| && (b == 0 || !IsSpace(s[b - 1]))
    requires forall m :: b <= m < |s| ==> IsSpace(s[m])
    ensures StrippedNonBlank(LinesFrom(s, i)) == StrippedNonBlank(LinesFrom(s[..b], i))
    decreases b - i
  {
    if i == b {
      BlankLines(s, b);
    } else {
      var k := NextBreak(s, i);
      NextBreakSkips(s, i);
      if k < b {
        var next := CutStep(s, b, i, k);
        ListedAfterCut(s, b, next);
        var t := s[..b];
        LinesFromAt(s, i, k, next, s[i..k]);
        LinesFromAt(t, i, k, next, s[i..k]);
        SameListed(LinesFrom(s, i), LinesFrom(t, i), s[i..k], s[i..k], LinesFrom(s, next), LinesFrom(t, next));
      } else {
        LastLineBeforeCut(s, b, i, k);
      }
    }
  }

  /** A boundary before the cut at `b` is read the same in the cut text: the
      scan takes the same line, skips the same width and resumes no later
      than `b`. */
  lemma CutStep(s: string, b: nat, i: nat, k: nat) returns (next: nat)
    requires i <= k < b <= |s| && !IsSpace(s[b - 1]) && k == NextBreak(s, i)
    requires forall m :: i <= m < k ==> !IsLineBreak(s[m])
    ensures var t := s[..b];
            && next == k + BreakWidth(s, k) && next <= b
            && NextBreak(t, i) == k && BreakWidth(t, k) == BreakWidth(s, k) && t[i..k] == s[i..k]
  {
    var t := s[..b];
    LineBreakIsSpace(s[k]);
    assert k + 1 < b;
    NextBreakFinds(t, i, k);
    next := k + BreakWidth(s, k);
  }

  /** The line in which the text is cut at `b` strips alike before and after
      the cut, and what follows it in the uncut text is blank. */
  lemma LastLineBeforeCut(s: string, b: nat, i: nat, k: nat)
    requires i < b <= k <= |s| && !IsSpace(s[b - 1]) && k == NextBreak(s, i)
    requires forall m :: b <= m < |s| ==> IsSpace(s[m])
    requires forall m :: i <= m < k ==> !IsLineBreak(s[m])
    ensures StrippedNonBlank(LinesFrom(s, i)) == StrippedNonBlank(LinesFrom(s[..b], i))
  {
    var t := s[..b];
    NextBreakNone(t, i);
    LinesFromLast(t, i);
    assert t[i..] == s[i..b];
    assert IsBlank(s[b..k]) by {
      forall m | 0 <= m < k - b ensures IsSpace(s[b..k][m]) {
        assert s[b..k][m] == s[b + m];
      }
    }
    assert s[i..k] == [] + s[i..b] + s[b..k];
    StripPadded([], s[i..b], s[b..k]);
    if k < |s| {
      var next := k + BreakWidth(s, k);
      BlankLines(s, next);
      LinesFromAt(s, i, k, next, s[i..k]);
      SameListed(LinesFrom(s, i), LinesFrom(t, i), s[i..k], s[i..b], LinesFrom(s, next), []);
    } else {
      LinesFromLast(s, i);
      SameListed(LinesFrom(s, i), LinesFrom(t, i), s[i..k], s[i..b], [], []);
    }
  }

  /** The scan reads only the text at and after where it starts: two texts
      that agree from `p` and from `q` on split alike from there. */
  lemma {:induction false} LinesFromShift(s: string, p: nat, t: string, q: nat)
    requires p <= |s| && q <= |t| && s[p..] == t[q..]
    ensures LinesFrom(s, p) == LinesFrom(t, q)
    decreases |s| - p
  {
    if p < |s| {
      var k, k2, ns, nt := ShiftedScan(s, p, t, q);
      if k < |s| {
        LinesFromShift(s, ns, t, nt);
        ShiftedStep(s, p, k, ns, t, q, k2, nt);
      } else {
        LinesFromLast(s, p);
        LinesFromLast(t, q);
      }
    }
  }

  /** Two scans that take the same line and skip a boundary return the same
      lines if they return the same lines after the boundary. */
  lemma ShiftedStep(s: string, p: nat, k: nat, ns: nat, t: string, q: nat, k2: nat, nt: nat)
    requires p < |s| && k == NextBreak(s, p) && k < |s| && ns == k + BreakWidth(s, k)
    requires q < |t| && k2 == NextBreak(t, q) && k2 < |t| && nt == k2 + BreakWidth(t, k2)
    requires s[p..k] == t[q..k2] && LinesFrom(s, ns) == LinesFrom(t, nt)
    ensures LinesFrom(s, p) == LinesFrom(t, q)
  {
    var line := s[p..k];
    LinesFromAt(s, p, k, ns, line);
    LinesFromAt(t, q, k2, nt, line);
    SameTail(LinesFrom(s, p), LinesFrom(t, q), line, LinesFrom(s, ns), LinesFrom(t, nt));
  }

  /** Two texts that agree from `p` and from `q` on: the scans from there take
      the same line, both stop at a boundary or both run to the end, and after
      a boundary they resume where the texts still agree. */
  lemma ShiftedScan(s: string, p: nat, t: string, q: nat) returns (k: nat, k2: nat, ns: nat, nt: nat)
    requires p < |s| && q <= |t| && s[p..] == t[q..]
    ensures q < |t| && k == NextBreak(s, p) && k2 == NextBreak(t, q) && s[p..k] == t[q..k2]
    ensures k < |s| <==> k2 < |t|
    ensures k < |s| ==> && ns == k + BreakWidth(s, k) && nt == k2 + BreakWidth(t, k2)
                        && ns <= |s| && nt <= |t| && s[ns..] == t[nt..]
  {
    forall m | p <= m < |s| ensures s[m] == t[q + (m - p)] {
      assert s[m] == s[p..][m - p] && t[q + (m - p)] == t[q..][m - p];
    }
    k := NextBreak(s, p);
    NextBreakSkips(s, p);
    k2 := q + (k - p);
    if k < |s| {
      NextBreakFinds(t, q, k2);
      ns, nt := k + BreakWidth(s, k), k2 + BreakWidth(t, k2);
      assert BreakWidth(s, k) == BreakWidth(t, k2);
      var a, b := s[ns..], t[nt..];
      assert a == b by {
        forall m | 0 <= m < |a| ensures a[m] == b[m] {
          assert a[m] == s[ns + m];
        }
      }
    } else {
      NextBreakNone(t, q);
      ns, nt := 0, 0;
    }
    assert s[p..k] == t[q..k2] by {
      forall m | 0 <= m < k - p ensures s[p..k][m] == t[q..k2][m] {
        assert s[p..k][m] == s[p + m];
      }
    }
  }

  /** A text with a non-whitespace character at `m` or later lists an entry
      from any `i <= m`: the character lies in some line, which is not blank. */
  lemma {:induction false} ListedNonEmpty(s: string, i: nat, m: nat)
    requires i <= m < |s| && !IsSpace(s[m])
    ensures StrippedNonBlank(LinesFrom(s, i)) != []
    decreases m - i
  {
    var k := NextBreak(s, i);
    if m < k {
      assert s[i..k][m - i] == s[m];
      ListedFromFirstLine(s, i);
    } else {
      LineBreakIsSpace(s[k]);
      var next := k + BreakWidth(s, k);
      ListedNonEmpty(s, next, m);
      ListedFromLaterLine(s, i, next);
    }
  }

  /** A non-blank first line gives an entry. */
  lemma ListedFromFirstLine(s: string, i: nat)
    requires i < |s| && !IsBlank(s[i..NextBreak(s, i)])
    ensures StrippedNonBlank(LinesFrom(s, i)) != []
  {
    var k := NextBreak(s, i);
    if k < |s| {
      var next := k + BreakWidth(s, k);
      LinesFromAt(s, i, k, next, s[i..k]);
      StrippedNonBlankCons(s[i..k], LinesFrom(s, next));
    } else {
      LinesFromLast(s, i);
      StrippedNonBlankCons(s[i..k], []);
    }
  }

  /** Lines after the first that give an entry give one from the start too. */
  lemma ListedFromLaterLine(s: string, i: nat, next: nat)
    requires i < |s| && NextBreak(s, i) < |s| && next == NextBreak(s, i) + BreakWidth(s, NextBreak(s, i))
    requires StrippedNonBlank(LinesFrom(s, next)) != []
    ensures StrippedNonBlank(LinesFrom(s, i)) != []
  {
    var k := NextBreak(s, i);
    LinesFromAt(s, i, k, next, s[i..k]);
    StrippedNonBlankCons(s[i..k], LinesFrom(s, next));
  }

  /** Stripping a line cuts it and adds nothing, so a line without boundaries
      stays without them. */
  lemma StripKeepsNoBreak(l: string)
    requires NoBreak(l)
    ensures NoBreak(Strip(l))
  {
    var i := SkipSpaces(l, 0);
    var j := SkipSpacesBack(l, i, |l|);
    var r := Strip(l);
    assert r == l[i..j];
    forall m | 0 <= m < |r| ensures !IsLineBreak(r[m]) {
      assert r[m] == l[i + m];
    }
  }

  /** The comprehension over lines without boundaries keeps entries without
      boundaries. */
  lemma StrippedNonBlankKeepsNoBreak(lines: seq<string>)
    requires forall n :: 0 <= n < |lines| ==> NoBreak(lines[n])
    ensures forall k :: 0 <= k < |StrippedNonBlank(lines)| ==> NoBreak(StrippedNonBlank(lines)[k])
  {
    var r, idx := StrippedNonBlank(lines), NonBlankFrom(lines, 0);
    assert lines[0..] == lines;
    StrippedNonBlankFrom(lines, 0);
    forall k | 0 <= k < |r| ensures NoBreak(r[k]) {
      StripKeepsNoBreak(lines[idx[k]]);
    }
  }

  /** Splitting a text and keeping the non-blank lines keeps something exactly
      when the text is not blank. */
  lemma ListedIffNotBlank(s: string)
    ensures StrippedNonBlank(SplitLines(s)) == [] <==> IsBlank(s)
  {
    if IsBlank(s) {
      BlankLines(s, 0);
    } else {
      var m :| 0 <= m < |s| && !IsSpace(s[m]);
      ListedNonEmpty(s, 0, m);
    }
  }
}
