/** The string operations the config reader relies on: whitespace as Python
    understands it, `str.strip()`, `str.split("=", 1)` and `str.splitlines()`. */
module Text {
  import opened Values

  /** Python's `str.isspace()` on one character; the regex class `\s` of a
      `str` pattern accepts exactly the same characters. */
  predicate IsSpace(c: char) {
    c == ' ' || ('\t' <= c <= '\r') || ('\U{1C}' <= c <= '\U{1F}')
    || c == '\U{85}' || c == '\U{A0}' || c == '\U{1680}'
    || ('\U{2000}' <= c <= '\U{200A}') || c == '\U{2028}' || c == '\U{2029}'
    || c == '\U{202F}' || c == '\U{205F}' || c == '\U{3000}'
  }

  predicate AllSpace(s: string) {
    forall i :: 0 <= i < |s| ==> IsSpace(s[i])
  }

  /** The length of the whitespace run at the start of `s`. */
  function LeadingSpaces(s: string): (n: nat)
    ensures n <= |s|
    ensures AllSpace(s[..n])
    ensures n < |s| ==> !IsSpace(s[n])
  {
    if s == [] || !IsSpace(s[0]) then 0
    else
      var k := LeadingSpaces(s[1..]);
      assert s[..k + 1] == [s[0]] + s[1..][..k];
      k + 1
  }

  /** Python's `s.strip()`: the text without its leading and trailing
      whitespace. */
  function Strip(s: string): (r: string)
    ensures |r| <= |s|
    ensures IsTrimmed(r)
    decreases |s|
  {
    if s != [] && IsSpace(s[0]) then Strip(s[1..])
    else if s != [] && IsSpace(s[|s| - 1]) then Strip(s[..|s| - 1])
    else s
  }

  /** `r` is the stretch of `s` that starts at `lo`, and only whitespace
      follows it. */
  predicate KeptMiddle(s: string, lo: nat, r: string) {
    lo + |r| <= |s| && r == s[lo..lo + |r|] && AllSpace(s[lo + |r|..])
  }

  /** Whitespace in front of a kept stretch moves the stretch along. */
  lemma KeptMiddleAfterSpace(s: string, lo: nat, r: string)
    requires s != [] && KeptMiddle(s[1..], lo, r)
    ensures KeptMiddle(s, lo + 1, r)
  {
    var tail := s[1..];
    assert tail[lo..lo + |r|] == s[lo + 1..lo + 1 + |r|];
    assert tail[lo + |r|..] == s[lo + 1 + |r|..];
  }

  /** Whitespace after a kept stretch joins the whitespace that follows it. */
  lemma KeptMiddleBeforeSpace(s: string, lo: nat, r: string)
    requires s != [] && IsSpace(s[|s| - 1]) && KeptMiddle(s[..|s| - 1], lo, r)
    ensures KeptMiddle(s, lo, r)
  {
    var init := s[..|s| - 1];
    assert init[lo..lo + |r|] == s[lo..lo + |r|];
    assert s[lo + |r|..] == init[lo + |r|..] + [s[|s| - 1]];
  }

  /** `Strip` removes whitespace and nothing else: what it keeps is the
      stretch of `s` after the leading whitespace, and only whitespace
      follows that stretch. */
  lemma {:induction false} StripKeepsMiddle(s: string)
    ensures KeptMiddle(s, LeadingSpaces(s), Strip(s))
    decreases |s|
  {
    if s != [] && IsSpace(s[0]) {
      StripKeepsMiddle(s[1..]);
      KeptMiddleAfterSpace(s, LeadingSpaces(s[1..]), Strip(s[1..]));
    } else if s != [] && IsSpace(s[|s| - 1]) {
      var init := s[..|s| - 1];
      StripKeepsMiddle(init);
      assert init[0] == s[0];
      KeptMiddleBeforeSpace(s, LeadingSpaces(init), Strip(init));
    } else {
      assert s[..|s|] == s;
    }
  }

  /** Text that neither starts nor ends with whitespace. */
  predicate IsTrimmed(s: string) {
    s == [] || (!IsSpace(s[0]) && !IsSpace(s[|s| - 1]))
  }

  /** Stripping text that neither starts nor ends with whitespace changes
      nothing; in particular `Strip` is idempotent. */
  lemma StripTrimmed(s: string)
    requires IsTrimmed(s)
    ensures Strip(s) == s
  {
  }

  /** The position of the first `c` in `s`, as `s.find(c)` would report it. */
  function IndexOf(s: string, c: char): (r: Option<nat>)
    ensures r.None? <==> c !in s
    ensures r.Some? ==> r.value < |s| && s[r.value] == c && c !in s[..r.value]
  {
    if s == [] then None
    else if s[0] == c then Some(0)
    else
      match IndexOf(s[1..], c)
      case None => None
      case Some(k) =>
        assert s[..k + 1] == [s[0]] + s[1..][..k];
        Some(k + 1)
  }

  /** `line.split("=", 1)` on a line that holds `=`: the text before the
      first `=` and everything after it. */
  function SplitAtFirst(line: string, sep: char): (r: Option<(string, string)>)
    ensures r.None? <==> sep !in line
    ensures r.Some? ==> sep !in r.value.0 && line == r.value.0 + [sep] + r.value.1
  {
    match IndexOf(line, sep)
    case None => None
    case Some(k) =>
      assert line == line[..k] + [sep] + line[k + 1..];
      Some((line[..k], line[k + 1..]))
  }

  /** Splitting text built around its first separator gives back the parts. */
  lemma SplitAtFirstOf(a: string, sep: char, b: string)
    requires sep !in a
    ensures SplitAtFirst(a + [sep] + b, sep) == Some((a, b))
  {
    var line := a + [sep] + b;
    assert line[|a|] == sep;
    var (a', b') := SplitAtFirst(line, sep).value;
    assert a' == line[..|a|] == a;
    assert b' == line[|a| + 1..] == b;
  }

  /** The line boundaries `str.splitlines()` recognises (`\r\n` counts as one,
      see `SplitLines`). */
  predicate IsLineBreak(c: char) {
    ('\n' <= c <= '\r') || ('\U{1C}' <= c <= '\U{1E}')
    || c == '\U{85}' || c == '\U{2028}' || c == '\U{2029}'
  }

  predicate NoBreak(s: string) {
    forall i :: 0 <= i < |s| ==> !IsLineBreak(s[i])
  }

  /** The length of the first line of `s`, without its terminator. */
  function LineEnd(s: string): (n: nat)
    ensures n <= |s|
    ensures NoBreak(s[..n])
    ensures n < |s| ==> IsLineBreak(s[n])
  {
    if s == [] || IsLineBreak(s[0]) then 0
    else
      var k := LineEnd(s[1..]);
      assert s[..k + 1] == [s[0]] + s[1..][..k];
      k + 1
  }

  /** Where the next line starts after a line ending at the boundary `s[n]`:
      `\r\n` is one boundary, any other boundary character is one by itself. */
  function NextLineStart(s: string, n: nat): (next: nat)
    requires n < |s| && IsLineBreak(s[n])
    ensures n < next <= n + 2 && next <= |s|
    ensures forall i :: n <= i < next ==> IsLineBreak(s[i])
  {
    if s[n] == '\r' && n + 1 < |s| && s[n + 1] == '\n' then n + 2 else n + 1
  }

  /** Python's `s.splitlines()`: the lines of `s` without their terminators,
      with no extra empty line after a final terminator. */
  function SplitLines(s: string): (lines: seq<string>)
    ensures forall k :: 0 <= k < |lines| ==> NoBreak(lines[k])
    ensures s == [] <==> lines == []
    decreases |s|
  {
    if s == [] then []
    else
      var n := LineEnd(s);
      if n == |s| then [s]
      else [s[..n]] + SplitLines(s[NextLineStart(s, n)..])
  }

  /** A line without boundaries, followed by a boundary or by nothing,
      ends where that text ends. */
  lemma {:induction false} LineEndOf(a: string, rest: string)
    requires NoBreak(a) && (rest == [] || IsLineBreak(rest[0]))
    ensures LineEnd(a + rest) == |a|
    decreases |a|
  {
    if a != [] {
      assert (a + rest)[0] == a[0] && (a + rest)[1..] == a[1..] + rest;
      LineEndOf(a[1..], rest);
    } else {
      assert a + rest == rest;
    }
  }

  /** Text without boundaries is one line. */
  lemma SplitLinesOneLine(a: string)
    requires a != [] && NoBreak(a)
    ensures SplitLines(a) == [a]
  {
    LineEndOf(a, []);
    assert a + [] == a;
  }

  /** A boundary character other than the `\r` of a `\r\n` ends the line
      before it, and the lines after it follow. */
  lemma SplitLinesAtBreak(a: string, c: char, b: string)
    requires NoBreak(a) && IsLineBreak(c)
    requires !(c == '\r' && b != [] && b[0] == '\n')
    ensures SplitLines(a + [c] + b) == [a] + SplitLines(b)
  {
    var s := a + [c] + b;
    LineEndOf(a, [c] + b);
    assert s == a + ([c] + b);
    assert s[|a|] == c && s[..|a|] == a;
    if c == '\r' && |a| + 1 < |s| {
      assert s[|a| + 1] == b[0];
    }
    assert s[|a| + 1..] == b;
  }

  /** A `\r\n` pair is one boundary: it ends the line before it, and the
      lines after it follow. */
  lemma SplitLinesAtCrLf(a: string, b: string)
    requires NoBreak(a)
    ensures SplitLines(a + "\r\n" + b) == [a] + SplitLines(b)
  {
    var s := a + "\r\n" + b;
    LineEndOf(a, "\r\n" + b);
    assert s == a + ("\r\n" + b);
    assert s[|a|] == '\r' && s[|a| + 1] == '\n' && s[..|a|] == a;
    assert s[|a| + 2..] == b;
  }

  /** Every line boundary is whitespace to `str.strip()`, so a stripped
      line never ends in a stray `\r`. */
  lemma BoundariesAreWhitespace(c: char)
    ensures IsLineBreak(c) ==> IsSpace(c)
  {
  }

  /** `s` with every line-boundary character removed. */
  function WithoutBreaks(s: string): string {
    if s == [] then []
    else if IsLineBreak(s[0]) then WithoutBreaks(s[1..])
    else [s[0]] + WithoutBreaks(s[1..])
  }

  function Concat(lines: seq<string>): string {
    if lines == [] then [] else lines[0] + Concat(lines[1..])
  }

  lemma {:induction false} WithoutBreaksAppend(a: string, b: string)
    ensures WithoutBreaks(a + b) == WithoutBreaks(a) + WithoutBreaks(b)
    decreases |a|
  {
    if a == [] {
      assert a + b == b;
    } else {
      var ab := a + b;
      assert ab[0] == a[0] && ab[1..] == a[1..] + b;
      WithoutBreaksAppend(a[1..], b);
      if IsLineBreak(a[0]) {
        assert WithoutBreaks(ab) == WithoutBreaks(ab[1..]);
        assert WithoutBreaks(a) == WithoutBreaks(a[1..]);
      } else {
        assert WithoutBreaks(ab) == [a[0]] + WithoutBreaks(ab[1..]);
        assert WithoutBreaks(a) == [a[0]] + WithoutBreaks(a[1..]);
      }
    }
  }

  lemma {:induction false} WithoutBreaksOfNoBreak(s: string)
    requires NoBreak(s)
    ensures WithoutBreaks(s) == s
    decreases |s|
  {
    if s != [] {
      WithoutBreaksOfNoBreak(s[1..]);
    }
  }

  /** The terminator `SplitLines` drops after the line that ends at `n`. */
  lemma TerminatorVanishes(s: string, n: nat, next: nat)
    requires n < next <= n + 2 && next <= |s|
    requires forall i :: n <= i < next ==> IsLineBreak(s[i])
    ensures WithoutBreaks(s[n..next]) == []
  {
    var t := s[n..next];
    assert IsLineBreak(t[0]);
    assert WithoutBreaks(t) == WithoutBreaks(t[1..]);
    if |t| == 2 {
      var u := t[1..];
      assert IsLineBreak(u[0]) && u[1..] == [];
      assert WithoutBreaks(u) == WithoutBreaks(u[1..]);
    } else {
      assert t[1..] == [];
    }
  }

  lemma ConcatCons(x: string, rest: seq<string>)
    ensures Concat([x] + rest) == x + Concat(rest)
  {
    assert ([x] + rest)[1..] == rest;
  }

  /** Dropping the boundaries of `s` leaves its first line followed by the
      rest of the text, without that line's terminator. */
  lemma FirstLineKept(s: string, n: nat, next: nat)
    requires n <= next <= |s|
    requires WithoutBreaks(s[..n]) == s[..n] && WithoutBreaks(s[n..next]) == []
    ensures WithoutBreaks(s) == s[..n] + WithoutBreaks(s[next..])
  {
    var line, term, rest := s[..n], s[n..next], s[next..];
    calc {
      WithoutBreaks(s);
      { assert s == (line + term) + rest; }
      WithoutBreaks((line + term) + rest);
      { WithoutBreaksAppend(line + term, rest); }
      WithoutBreaks(line + term) + WithoutBreaks(rest);
      { WithoutBreaksAppend(line, term); }
      WithoutBreaks(line) + WithoutBreaks(term) + WithoutBreaks(rest);
      line + [] + WithoutBreaks(rest);
      { assert line + [] == line; }
      line + WithoutBreaks(rest);
    }
  }

  /** Splitting into lines loses nothing but the line boundaries: the lines,
      put back together, are the text with its boundary characters removed. */
  lemma {:induction false} SplitLinesKeepsText(s: string)
    ensures Concat(SplitLines(s)) == WithoutBreaks(s)
    decreases |s|
  {
    if s != [] {
      var n := LineEnd(s);
      if n == |s| {
        assert s[..n] == s;
        WithoutBreaksOfNoBreak(s);
        ConcatCons(s, []);
      } else {
        var next := NextLineStart(s, n);
        var rest := s[next..];
        assert SplitLines(s) == [s[..n]] + SplitLines(rest);
        ConcatCons(s[..n], SplitLines(rest));
        SplitLinesKeepsText(rest);
        WithoutBreaksOfNoBreak(s[..n]);
        TerminatorVanishes(s, n, next);
        FirstLineKept(s, n, next);
      }
    }
  }
}
