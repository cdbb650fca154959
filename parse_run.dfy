/** The run summariser of `parse_run.py`: it extracts throughput and Metal
    memory facts from an inference log, reads the run's `key=value`
    configuration, and combines both into the run's summary record. File
    access is left to the caller: the log and the configuration arrive as
    text, the run directory as an already resolved path. */
module ParseRun {
  import opened Values
  import opened Text
  import opened Numbers

  /** The two groups of one throughput match: prompt and generation rates. */
  datatype Throughput = Throughput(prompt: string, gen: string)

  /** The six groups of one Metal memory-breakdown match, in pattern order. */
  datatype MetalBreakdown = MetalBreakdown(
    free: string, usedTotal: string, model: string,
    context: string, compute: string, unaccounted: string)

  // ---------------------------------------------------------------------
  // The throughput pattern
  //   \[\s*Prompt:\s*([0-9.]+)\s*t/s\s*\|\s*Generation:\s*([0-9.]+)\s*t/s\s*\]
  // Every `\s*` and every `[0-9.]+` in it is followed by a token that cannot
  // start with a character of its own class, so taking each greedily, without
  // backtracking, finds exactly the match the regex engine finds. Each step
  // reads the text that remains and reports how much of it it consumed.
  // ---------------------------------------------------------------------

  /** `\s*` at the start of `u`: the length of the whitespace run. */
  function SpaceRun(u: string): (n: nat)
    ensures n <= |u|
    ensures forall k :: 0 <= k < n ==> IsSpace(u[k])
    ensures n < |u| ==> !IsSpace(u[n])
  {
    if u != [] && IsSpace(u[0]) then
      var n := 1 + SpaceRun(u[1..]);
      assert forall k :: 1 <= k < n ==> u[k] == u[1..][k - 1];
      n
    else 0
  }

  /** The length of the run of `[0-9.]` characters at the start of `u`. */
  function DecimalRun(u: string): (n: nat)
    ensures n <= |u|
    ensures forall k :: 0 <= k < n ==> IsDecimalChar(u[k])
    ensures n < |u| ==> !IsDecimalChar(u[n])
  {
    if u != [] && IsDecimalChar(u[0]) then
      var n := 1 + DecimalRun(u[1..]);
      assert forall k :: 1 <= k < n ==> u[k] == u[1..][k - 1];
      n
    else 0
  }

  /** A captured rate: one or more characters of `[0-9.]`. */
  predicate IsRateGroup(g: string) {
    g != [] && AllDecimalChars(g)
  }

  /** `\s*` and then the literal `lit` at the start of `u`: the length
      consumed, if the literal is there. */
  function SpacedToken(u: string, lit: string): (r: Option<nat>)
    ensures r.Some? <==> (var n := SpaceRun(u); n + |lit| <= |u| && u[n..n + |lit|] == lit)
    ensures r.Some? ==> r.value == SpaceRun(u) + |lit| <= |u|
  {
    var n := SpaceRun(u);
    if n + |lit| <= |u| && u[n..n + |lit|] == lit then Some(n + |lit|) else None
  }

  /** `\s*([0-9.]+)` at the start of `u`: where the captured group starts
      and ends. */
  function SpacedRate(u: string): (r: Option<(nat, nat)>)
    ensures r.Some? ==> r.value.0 == SpaceRun(u) && r.value.1 == r.value.0 + DecimalRun(u[r.value.0..])
    ensures r.Some? ==> r.value.0 < r.value.1 <= |u| && IsRateGroup(u[r.value.0..r.value.1])
  {
    var n := SpaceRun(u);
    var m := DecimalRun(u[n..]);
    if m == 0 then None
    else
      assert forall k :: 0 <= k < m ==> u[n..n + m][k] == u[n..][k];
      Some((n, n + m))
  }

  /** `\s*([0-9.]+)` fails exactly when no `[0-9.]` character follows the
      whitespace run. */
  lemma SpacedRateFails(u: string)
    ensures var n := SpaceRun(u);
      SpacedRate(u).None? <==> n == |u| || !IsDecimalChar(u[n])
  {
    var n := SpaceRun(u);
    if n < |u| {
      assert u[n..][0] == u[n];
    }
  }

  /** One piece of the throughput pattern after its opening `\[`: `\s*`
      followed by a literal word, or `\s*([0-9.]+)`. */
  datatype Piece = Word(text: string) | Rate

  /** The throughput pattern after its opening `\[`, piece by piece. */
  const ThroughputPattern: seq<Piece> :=
    [Word("Prompt:"), Rate, Word("t/s"), Word("|"), Word("Generation:"), Rate, Word("t/s"), Word("]")]

  /** How many groups the pieces capture. */
  function RateCount(ps: seq<Piece>): nat {
    if ps == [] then 0 else (if ps[0].Rate? then 1 else 0) + RateCount(ps[1..])
  }

  /** The pieces matched in turn at the start of `u`: the captured groups
      and the length consumed. */
  function MatchPieces(u: string, ps: seq<Piece>): (r: Option<(seq<string>, nat)>)
    ensures r.Some? ==> r.value.1 <= |u| && |r.value.0| == RateCount(ps)
    ensures r.Some? ==> forall c :: 0 <= c < |r.value.0| ==> IsRateGroup(r.value.0[c])
    decreases |ps|
  {
    if ps == [] then Some(([], 0))
    else
      match ps[0]
      case Word(w) =>
        var j :- SpacedToken(u, w);
        var rest :- MatchPieces(u[j..], ps[1..]);
        Some((rest.0, j + rest.1))
      case Rate =>
        var g :- SpacedRate(u);
        var rest :- MatchPieces(u[g.1..], ps[1..]);
        Some(([u[g.0..g.1]] + rest.0, g.1 + rest.1))
  }

  /** The pattern captures two groups. */
  lemma PatternRates()
    ensures RateCount(ThroughputPattern) == 2
  {
    var ps := ThroughputPattern;
    assert RateCount(ps[5..]) == 1 by {
      assert ps[5..][1..] == ps[6..] && ps[6..][1..] == ps[7..] && ps[7..][1..] == [];
    }
    assert ps[1..][1..] == ps[2..] && ps[2..][1..] == ps[3..] && ps[3..][1..] == ps[4..];
    assert ps[4..][1..] == ps[5..];
  }

  /** The throughput match that starts at `i`, with the position after it. */
  function ThroughputAt(s: string, i: nat): (r: Option<(Throughput, nat)>)
    requires i <= |s|
    ensures r.Some? ==> i < r.value.1 <= |s| && s[i] == '['
    ensures r.Some? ==> IsRateGroup(r.value.0.prompt) && IsRateGroup(r.value.0.gen)
  {
    if i == |s| || s[i] != '[' then None
    else
      var m :- MatchPieces(s[i + 1..], ThroughputPattern);
      PatternRates();
      Some((Throughput(m.0[0], m.0[1]), i + 1 + m.1))
  }

  /** `RE_TPUT.findall(s[i..])`: the groups of every non-overlapping match,
      scanning left to right and resuming after each match. */
  function FindAllThroughput(s: string, i: nat): (ms: seq<Throughput>)
    requires i <= |s|
    ensures forall k :: 0 <= k < |ms| ==> IsRateGroup(ms[k].prompt) && IsRateGroup(ms[k].gen)
    decreases |s| - i
  {
    if i == |s| then []
    else
      match ThroughputAt(s, i)
      case Some((m, next)) => [m] + FindAllThroughput(s, next)
      case None => FindAllThroughput(s, i + 1)
  }

  /** `\s*Prompt:` follows the `[` at `i`. */
  predicate PromptAfter(s: string, i: nat)
    requires i < |s|
  {
    var u := s[i + 1..];
    var n := SpaceRun(u);
    n + 7 <= |u| && u[n..n + 7] == "Prompt:"
  }

  /** A match of pieces whose last one is the word `]` ends with `]`. */
  lemma {:induction false} MatchPiecesEnds(u: string, ps: seq<Piece>)
    requires ps != [] && ps[|ps| - 1] == Word("]")
    ensures var r := MatchPieces(u, ps);
      r.Some? ==> 0 < r.value.1 && u[r.value.1 - 1] == ']'
    decreases |ps|
  {
    var r := MatchPieces(u, ps);
    if r.Some? {
      var j := if ps[0].Rate? then SpacedRate(u).value.1 else SpacedToken(u, ps[0].text).value;
      var rest := MatchPieces(u[j..], ps[1..]).value;
      assert r.value.1 == j + rest.1;
      if |ps| > 1 {
        MatchPiecesEnds(u[j..], ps[1..]);
        assert u[j..][rest.1 - 1] == u[j + rest.1 - 1];
      } else {
        var n := SpaceRun(u);
        assert u[j - 1] == u[n..n + 1][0];
      }
    }
  }

  /** A pattern that opens with a word matches only text that opens with
      whitespace and that word. */
  lemma MatchPiecesOpens(u: string, ps: seq<Piece>)
    requires ps != [] && ps[0].Word?
    ensures MatchPieces(u, ps).Some? ==> SpacedToken(u, ps[0].text).Some?
  {
  }

  /** A pattern that opens with `Prompt:` and closes with `]` matches only
      text that opens with whitespace and `Prompt:` and whose match ends
      on `]`. */
  lemma PromptPatternBounds(u: string, ps: seq<Piece>)
    requires |ps| > 1 && ps[0] == Word("Prompt:") && ps[|ps| - 1] == Word("]")
    ensures var r := MatchPieces(u, ps);
      r.Some? ==> var n := SpaceRun(u);
        n + 7 <= |u| && u[n..n + 7] == "Prompt:" && 0 < r.value.1 && u[r.value.1 - 1] == ']'
  {
    MatchPiecesOpens(u, ps);
    MatchPiecesEnds(u, ps);
  }

  /** A match starts at a `[` followed by whitespace and `Prompt:`. */
  lemma ThroughputAtOpens(s: string, i: nat)
    requires i <= |s|
    ensures ThroughputAt(s, i).Some? ==> i < |s| && s[i] == '[' && PromptAfter(s, i)
  {
    if ThroughputAt(s, i).Some? {
      PromptPatternBounds(s[i + 1..], ThroughputPattern);
    }
  }

  /** A match ends on a `]`. */
  lemma ThroughputAtCloses(s: string, i: nat)
    requires i <= |s|
    ensures var r := ThroughputAt(s, i);
      r.Some? ==> s[r.value.1 - 1] == ']'
  {
    if ThroughputAt(s, i).Some? {
      var u := s[i + 1..];
      PromptPatternBounds(u, ThroughputPattern);
      var m := MatchPieces(u, ThroughputPattern).value;
      assert u[m.1 - 1] == s[i + 1 + m.1 - 1];
    }
  }

  /** A match opens with `[`, whitespace and `Prompt:`, and closes with `]`. */
  lemma ThroughputAtSound(s: string, i: nat)
    requires i <= |s|
    ensures var r := ThroughputAt(s, i);
      r.Some? ==> s[i] == '[' && PromptAfter(s, i) && s[r.value.1 - 1] == ']'
  {
    ThroughputAtOpens(s, i);
    ThroughputAtCloses(s, i);
  }

  /** Text in which no `[` is followed by whitespace and `Prompt:` holds no
      throughput line. */
  lemma {:induction false} NoPromptNoThroughput(s: string, i: nat)
    requires i <= |s|
    requires forall k :: i <= k < |s| && s[k] == '[' ==> !PromptAfter(s, k)
    ensures FindAllThroughput(s, i) == []
    decreases |s| - i
  {
    if i < |s| {
      ThroughputAtSound(s, i);
      NoPromptNoThroughput(s, i + 1);
    }
  }

  /** `findall` passes over text without a `[` and goes on after it. */
  lemma {:induction false} SkipNoBracket(s: string, i: nat, j: nat)
    requires i <= j <= |s|
    requires forall k :: i <= k < j ==> s[k] != '['
    ensures FindAllThroughput(s, i) == FindAllThroughput(s, j)
    decreases j - i
  {
    if i == j {
      return;
    }
    assert ThroughputAt(s, i).None?;
    SkipNoBracket(s, i + 1, j);
    assert FindAllThroughput(s, i) == FindAllThroughput(s, i + 1) == FindAllThroughput(s, j);
  }

  /** Two positions followed by the same text hold the same match, ending
      the same distance on. */
  lemma ThroughputAtSame(s: string, i: nat, s': string, i': nat)
    requires i <= |s| && i' <= |s'| && s[i..] == s'[i'..]
    ensures ThroughputAt(s, i).Some? == ThroughputAt(s', i').Some?
    ensures ThroughputAt(s, i).Some? ==>
      ThroughputAt(s, i).value.0 == ThroughputAt(s', i').value.0
      && ThroughputAt(s, i).value.1 - i == ThroughputAt(s', i').value.1 - i'
  {
    if i < |s| {
      assert s[i] == s[i..][0] == s'[i'..][0] == s'[i'];
      assert s[i + 1..] == s[i..][1..] == s'[i'..][1..] == s'[i' + 1..];
    }
  }

  /** `findall` from two positions followed by the same text finds the same
      matches: what precedes a position does not change what is found
      after it. */
  lemma {:induction false} FindAllSame(s: string, i: nat, s': string, i': nat)
    requires i <= |s| && i' <= |s'| && s[i..] == s'[i'..]
    ensures FindAllThroughput(s, i) == FindAllThroughput(s', i')
    decreases |s| - i
  {
    if i == |s| {
      return;
    }
    ThroughputAtSame(s, i, s', i');
    var r, r' := ThroughputAt(s, i), ThroughputAt(s', i');
    if r.None? {
      FindAllAtNoMatch(s, i);
      FindAllAtNoMatch(s', i');
      assert s[i + 1..] == s'[i' + 1..] by {
        assert s[i + 1..] == s[i..][1..] && s'[i' + 1..] == s'[i'..][1..];
      }
      FindAllSame(s, i + 1, s', i' + 1);
    } else {
      FindAllAtMatch(s, i);
      FindAllAtMatch(s', i');
      var next, next' := r.value.1, r'.value.1;
      assert s[next..] == s'[next'..] by {
        assert s[next..] == s[i..][next - i..] && s'[next'..] == s'[i'..][next' - i'..];
      }
      FindAllSame(s, next, s', next');
    }
  }

  /** Where no match starts, the scan moves on by one character. */
  lemma FindAllAtNoMatch(s: string, i: nat)
    requires i < |s| && ThroughputAt(s, i).None?
    ensures FindAllThroughput(s, i) == FindAllThroughput(s, i + 1)
  { }

  /** The canonical throughput line llama.cpp prints, with rates `p` and `g`. */
  function ThroughputLine(p: string, g: string): string {
    "[ Prompt: " + p + " t/s | Generation: " + g + " t/s ]"
  }

  /** The pieces laid out with one space before each, the captures `caps`
      in place of the groups. */
  function Spaced(ps: seq<Piece>, caps: seq<string>): string
    requires |caps| == RateCount(ps)
  {
    if ps == [] then ""
    else
      match ps[0]
      case Word(w) => " " + w + Spaced(ps[1..], caps)
      case Rate => " " + caps[0] + Spaced(ps[1..], caps[1..])
  }

  /** One space and then `lit`, which does not start with whitespace:
      `\s*` takes the space and the token matches right after it. */
  lemma SpacedTokenOn(u: string, lit: string, tail: string)
    requires lit != [] && !IsSpace(lit[0])
    requires u == " " + lit + tail
    ensures SpacedToken(u, lit) == Some(1 + |lit|)
    ensures u[1 + |lit|..] == tail
  {
    assert u[1..][0] == lit[0];
    assert SpaceRun(u) == 1;
    assert u[1..1 + |lit|] == lit;
  }

  /** A run of `[0-9.]` characters followed by something else is read
      whole. */
  lemma {:induction false} DecimalRunOf(g: string, tail: string)
    requires AllDecimalChars(g) && (tail == [] || !IsDecimalChar(tail[0]))
    ensures DecimalRun(g + tail) == |g|
    decreases |g|
  {
    if g != [] {
      assert (g + tail)[1..] == g[1..] + tail;
      DecimalRunOf(g[1..], tail);
    }
  }

  /** One space and then a rate group followed by a character outside
      `[0-9.]`: the group is captured whole. */
  lemma SpacedRateOn(u: string, g: string, tail: string)
    requires IsRateGroup(g) && tail != [] && !IsDecimalChar(tail[0])
    requires u == " " + g + tail
    ensures SpacedRate(u) == Some((1, 1 + |g|))
    ensures u[1..1 + |g|] == g && u[1 + |g|..] == tail
  {
    assert u[1..][0] == g[0];
    assert SpaceRun(u) == 1;
    assert u[1..] == g + tail;
    DecimalRunOf(g, tail);
  }

  /** Every word is non-empty and starts with neither whitespace nor a
      `[0-9.]` character, and every group is followed by another piece. */
  predicate Separated(ps: seq<Piece>) {
    ps == [] ||
    ((match ps[0]
      case Word(w) => w != [] && !IsSpace(w[0]) && !IsDecimalChar(w[0])
      case Rate => |ps| > 1)
     && Separated(ps[1..]))
  }

  /** Matching a word that follows one space consumes the space and the
      word and goes on with the text after them. */
  lemma MatchWordStep(u: string, ps: seq<Piece>, tail: string)
    requires ps != [] && ps[0].Word? && ps[0].text != [] && !IsSpace(ps[0].text[0])
    requires u == " " + ps[0].text + tail
    ensures MatchPieces(u, ps).Some? == MatchPieces(tail, ps[1..]).Some?
    ensures MatchPieces(u, ps).Some? ==>
      MatchPieces(u, ps).value.0 == MatchPieces(tail, ps[1..]).value.0
      && MatchPieces(u, ps).value.1 == 1 + |ps[0].text| + MatchPieces(tail, ps[1..]).value.1
  {
    SpacedTokenOn(u, ps[0].text, tail);
  }

  /** Matching a group that follows one space captures the rate `g` and goes
      on with the text after it. */
  lemma MatchRateStep(u: string, ps: seq<Piece>, g: string, tail: string)
    requires ps != [] && ps[0].Rate? && IsRateGroup(g)
    requires tail != [] && !IsDecimalChar(tail[0]) && u == " " + g + tail
    ensures MatchPieces(u, ps).Some? == MatchPieces(tail, ps[1..]).Some?
    ensures MatchPieces(u, ps).Some? ==>
      MatchPieces(u, ps).value.0 == [g] + MatchPieces(tail, ps[1..]).value.0
      && MatchPieces(u, ps).value.1 == 1 + |g| + MatchPieces(tail, ps[1..]).value.1
  {
    SpacedRateOn(u, g, tail);
  }

  /** Separated pieces laid out one space apart, whatever the captured
      rates, are matched capturing exactly those rates. */
  lemma {:induction false} MatchSpaced(u: string, ps: seq<Piece>, caps: seq<string>, rest: string)
    requires Separated(ps) && |caps| == RateCount(ps)
    requires forall c :: 0 <= c < |caps| ==> IsRateGroup(caps[c])
    requires u == Spaced(ps, caps) + rest
    ensures var r := MatchPieces(u, ps);
      r.Some? && r.value.0 == caps && r.value.1 == |Spaced(ps, caps)|
    decreases |ps|
  {
    if ps != [] {
      match ps[0]
      case Word(w) =>
        var tail := Spaced(ps[1..], caps) + rest;
        assert u == " " + w + tail;
        MatchSpaced(tail, ps[1..], caps, rest);
        MatchWordStep(u, ps, tail);
      case Rate =>
        var tail := Spaced(ps[1..], caps[1..]) + rest;
        assert u == " " + caps[0] + tail;
        assert tail[0] == ' ';
        MatchSpaced(tail, ps[1..], caps[1..], rest);
        MatchRateStep(u, ps, caps[0], tail);
        assert caps == [caps[0]] + caps[1..];
    }
  }

  /** The throughput pattern is separated. */
  lemma PatternSeparated()
    ensures Separated(ThroughputPattern)
  {
    var ps := ThroughputPattern;
    assert ps[7..][1..] == [];
    assert Separated(ps[7..]);
    assert ps[6..][1..] == ps[7..];
    assert Separated(ps[6..]);
    assert ps[5..][1..] == ps[6..];
    assert Separated(ps[5..]);
    assert ps[4..][1..] == ps[5..];
    assert Separated(ps[4..]);
    assert ps[3..][1..] == ps[4..];
    assert Separated(ps[3..]);
    assert ps[2..][1..] == ps[3..];
    assert Separated(ps[2..]);
    assert ps[1..][1..] == ps[2..];
    assert Separated(ps[1..]);
  }

  /** The canonical line cut where the pieces are laid out. */
  lemma LineChunks(p: string, g: string)
    ensures ThroughputLine(p, g) == "[" + (" " + "Prompt:" + (" " + p + (" " + "t/s" + (" " + "|"
      + (" " + "Generation:" + (" " + g + (" " + "t/s" + (" " + "]" + ""))))))))
  {
    assert " t/s ]" == " " + "t/s" + (" " + "]" + "");
    assert " t/s | Generation: " + g + " t/s ]"
      == " " + "t/s" + (" " + "|" + (" " + "Generation:" + (" " + g + (" " + "t/s" + (" " + "]" + "")))));
  }

  /** The canonical line is the pattern laid out one space apart. */
  lemma ThroughputLineSpaced(p: string, g: string)
    ensures RateCount(ThroughputPattern) == 2
    ensures ThroughputLine(p, g) == "[" + Spaced(ThroughputPattern, [p, g])
  {
    PatternRates();
    var ps := ThroughputPattern;
    assert ps[7..][1..] == [] && ps[6..][1..] == ps[7..] && ps[5..][1..] == ps[6..];
    var close := " " + "t/s" + (" " + "]" + "");
    assert Spaced(ps[7..], []) == " " + "]" + "";
    assert Spaced(ps[6..], []) == close;
    var gen := " " + g + close;
    assert [g][1..] == [] && [p, g][1..] == [g];
    assert Spaced(ps[5..], [g]) == gen;
    assert ps[4..][1..] == ps[5..] && ps[3..][1..] == ps[4..] && ps[2..][1..] == ps[3..];
    var mid := " " + "t/s" + (" " + "|" + (" " + "Generation:" + gen));
    assert Spaced(ps[4..], [g]) == " " + "Generation:" + gen;
    assert Spaced(ps[3..], [g]) == " " + "|" + (" " + "Generation:" + gen);
    assert Spaced(ps[2..], [g]) == mid;
    assert ps[1..][1..] == ps[2..];
    assert Spaced(ps, [p, g]) == " " + "Prompt:" + (" " + p + mid);
    LineChunks(p, g);
  }

  /** `RE_TPUT` matches the canonical line at its start, capturing exactly
      the two rates, and the match ends where the line does. */
  lemma ThroughputAtLine(p: string, g: string, rest: string)
    requires IsRateGroup(p) && IsRateGroup(g)
    ensures var r := ThroughputAt(ThroughputLine(p, g) + rest, 0);
      r.Some? && r.value.0 == Throughput(p, g) && r.value.1 == |ThroughputLine(p, g)|
  {
    var s := ThroughputLine(p, g) + rest;
    ThroughputLineSpaced(p, g);
    PatternSeparated();
    assert s[1..] == Spaced(ThroughputPattern, [p, g]) + rest;
    MatchSpaced(s[1..], ThroughputPattern, [p, g], rest);
  }

  /** `findall` over text that starts with the canonical line reports that
      line's rates first and then goes on with the text after the line;
      when nothing after it holds a `[`, they are the only match. */
  lemma FindAllFromLine(p: string, g: string, rest: string)
    requires IsRateGroup(p) && IsRateGroup(g)
    ensures FindAllThroughput(ThroughputLine(p, g) + rest, 0)
      == [Throughput(p, g)] + FindAllThroughput(rest, 0)
    ensures '[' !in rest ==> FindAllThroughput(ThroughputLine(p, g) + rest, 0) == [Throughput(p, g)]
  {
    var line := ThroughputLine(p, g);
    var s := line + rest;
    ThroughputAtLine(p, g, rest);
    FindAllAtMatch(s, 0);
    assert s[|line|..] == rest[0..];
    FindAllSame(s, |line|, rest, 0);
    if '[' !in rest {
      SkipNoBracket(rest, 0, |rest|);
    }
  }

  /** A match at `i` is reported, and the scan resumes after it. */
  lemma FindAllAtMatch(s: string, i: nat)
    requires i < |s| && ThroughputAt(s, i).Some?
    ensures FindAllThroughput(s, i)
      == [ThroughputAt(s, i).value.0] + FindAllThroughput(s, ThroughputAt(s, i).value.1)
  { }

  /** Text without a `[` in front of `rest` changes nothing that is
      found. */
  lemma AfterNoBracket(text: string, rest: string)
    requires '[' !in text
    ensures FindAllThroughput(text + rest, 0) == FindAllThroughput(rest, 0)
  {
    var s := text + rest;
    forall k | 0 <= k < |text| ensures s[k] != '[' {
      assert s[k] == text[k];
    }
    SkipNoBracket(s, 0, |text|);
    assert s[|text|..] == rest[0..];
    FindAllSame(s, |text|, rest, 0);
  }

  /** Two canonical lines amid text without a `[`: `findall` reports both,
      in order. */
  lemma TwoThroughputLines(pre: string, p1: string, g1: string, mid: string,
                           p2: string, g2: string, post: string)
    requires IsRateGroup(p1) && IsRateGroup(g1) && IsRateGroup(p2) && IsRateGroup(g2)
    requires '[' !in pre && '[' !in mid && '[' !in post
    ensures FindAllThroughput(pre + ThroughputLine(p1, g1) + mid + ThroughputLine(p2, g2) + post, 0)
      == [Throughput(p1, g1), Throughput(p2, g2)]
  {
    var line1, line2 := ThroughputLine(p1, g1), ThroughputLine(p2, g2);
    var tail2 := line2 + post;
    var tail1 := line1 + (mid + tail2);
    assert pre + line1 + mid + line2 + post == pre + tail1;
    AfterNoBracket(pre, tail1);
    FindAllFromLine(p1, g1, mid + tail2);
    AfterNoBracket(mid, tail2);
    FindAllFromLine(p2, g2, post);
  }

  /** Of two canonical lines, the log facts hold the rates of the later
      one, whatever the earlier one's rates are. */
  lemma LaterLineWins(pre: string, p1: string, g1: string, mid: string,
                      p2: string, g2: string, post: string)
    requires IsRateGroup(p1) && IsRateGroup(g1) && IsRateGroup(p2) && IsRateGroup(g2)
    requires '[' !in pre && '[' !in mid && '[' !in post
    requires ParseDecimal(p2).Some? && ParseDecimal(g2).Some?
    ensures var s := pre + ThroughputLine(p1, g1) + mid + ThroughputLine(p2, g2) + post;
      LogFacts(FindAllThroughput(s, 0), [])
        == Ok(map[PromptTps := Num(ParseDecimal(p2).value), GenTps := Num(ParseDecimal(g2).value)])
  {
    TwoThroughputLines(pre, p1, g1, mid, p2, g2, post);
  }

  // ---------------------------------------------------------------------
  // parse_log
  // ---------------------------------------------------------------------

  /** `float(text)`: raises `ValueError`, carrying the text, exactly when
      the text is not a decimal. */
  function ToFloat(text: string): (r: Result<real>)
    ensures r.Ok? <==> ParseDecimal(text).Some?
    ensures r.Err? ==> r.error == MalformedNumber(text)
  {
    match ParseDecimal(text)
    case Some(v) => Ok(v)
    case None => Err(MalformedNumber(text))
  }

  /** `int(text)`: raises `ValueError`, carrying the text, exactly when the
      text is not an integer literal. */
  function ToInt(text: string): (r: Result<int>)
    ensures r.Ok? <==> ParseInt(text).Some?
    ensures r.Err? ==> r.error == MalformedNumber(text)
  {
    match ParseInt(text)
    case Some(n) => Ok(n)
    case None => Err(MalformedNumber(text))
  }

  /** The throughput group of the log facts: both rates from the last match,
      or nothing when there is no match. */
  function ThroughputFields(tputs: seq<Throughput>): (r: Result<Record>)
    ensures r.Ok? ==> forall k :: k in r.value <==> tputs != [] && k.IsThroughput()
    ensures r.Ok? && tputs != [] ==>
      PromptTps in r.value && GenTps in r.value && r.value[PromptTps].Num? && r.value[GenTps].Num?
    ensures r.Err? <==> (tputs != [] &&
      (ParseDecimal(tputs[|tputs| - 1].prompt).None? || ParseDecimal(tputs[|tputs| - 1].gen).None?))
    ensures r.Err? ==> var last := tputs[|tputs| - 1];
      r.error == MalformedNumber(if ParseDecimal(last.prompt).None? then last.prompt else last.gen)
  {
    if tputs == [] then Ok(map[])
    else
      var last := tputs[|tputs| - 1];
      var prompt :- ToFloat(last.prompt);
      var gen :- ToFloat(last.gen);
      Ok(map[PromptTps := Num(prompt), GenTps := Num(gen)])
  }

  /** `int()` applied to each group in turn, raising at the first malformed
      one. */
  function ToInts(groups: seq<string>): (r: Result<seq<int>>)
    ensures r.Ok? ==> |r.value| == |groups|
    ensures r.Err? ==> r.error.MalformedNumber?
  {
    if groups == [] then Ok([])
    else
      var first :- ToInt(groups[0]);
      var rest :- ToInts(groups[1..]);
      Ok([first] + rest)
  }

  /** Some group is not an integer literal. */
  predicate SomeNotInt(groups: seq<string>) {
    exists k :: 0 <= k < |groups| && ParseInt(groups[k]).None?
  }

  /** The first group that is not an integer literal, if any. */
  predicate FirstMalformed(groups: seq<string>, k: nat) {
    k < |groups| && ParseInt(groups[k]).None?
    && forall j :: 0 <= j < k ==> ParseInt(groups[j]).Some?
  }

  /** `int()` over the groups succeeds exactly when every group is an
      integer literal, giving each group's value in order; otherwise it
      raises on the first group that is not. */
  lemma {:induction false} ToIntsRaisesAtFirst(groups: seq<string>)
    ensures ToInts(groups).Ok? <==> forall k :: 0 <= k < |groups| ==> ParseInt(groups[k]).Some?
    ensures ToInts(groups).Ok? ==>
      forall k :: 0 <= k < |groups| ==> ToInts(groups).value[k] == ParseInt(groups[k]).value
    ensures ToInts(groups).Err? ==>
      exists k: nat :: FirstMalformed(groups, k) && ToInts(groups).error == MalformedNumber(groups[k])
  {
    if groups != [] {
      var rest := groups[1..];
      ToIntsRaisesAtFirst(rest);
      if ParseInt(groups[0]).Some? {
        forall k | 0 <= k < |groups| && k > 0 ensures groups[k] == rest[k - 1] { }
        if ToInts(rest).Err? {
          var k: nat :| FirstMalformed(rest, k) && ToInts(rest).error == MalformedNumber(rest[k]);
          assert groups[k + 1] == rest[k];
          assert forall j :: 0 < j <= k ==> groups[j] == rest[j - 1];
          assert FirstMalformed(groups, k + 1);
        } else {
          assert forall k :: 0 <= k < |groups| ==> ParseInt(groups[k]).Some? by {
            forall k | 0 <= k < |groups| ensures ParseInt(groups[k]).Some? {
              if k > 0 { assert ParseInt(rest[k - 1]).Some?; }
            }
          }
        }
      } else {
        assert FirstMalformed(groups, 0);
      }
    }
  }

  /** Digit groups always convert, each to the number it denotes. */
  lemma {:induction false} ToIntsOfDigits(groups: seq<string>)
    requires forall k :: 0 <= k < |groups| ==> IsDigitGroup(groups[k])
    ensures ToInts(groups).Ok?
    ensures forall k :: 0 <= k < |groups| ==>
      AllDigits(groups[k]) && ToInts(groups).value[k] == DigitsValue(groups[k])
  {
    if groups != [] {
      ParseIntOfDigits(groups[0]);
      ToIntsOfDigits(groups[1..]);
    }
  }

  /** The six groups of a memory-breakdown match, in pattern order. */
  function Groups(m: MetalBreakdown): seq<string> {
    [m.free, m.usedTotal, m.model, m.context, m.compute, m.unaccounted]
  }

  /** `out` with the memory-breakdown group of the log facts set: all six
      values from the last match, or `out` itself when there is no match. */
  function WithMetal(out: Record, metals: seq<MetalBreakdown>): (r: Result<Record>)
    ensures r.Err? <==> metals != [] && ToInts(Groups(metals[|metals| - 1])).Err?
    ensures r.Ok? ==> forall k :: k in r.value <==> k in out || (metals != [] && k.IsMetal())
    ensures r.Ok? ==> forall k :: k in out && !k.IsMetal() ==> r.value[k] == out[k]
    ensures r.Ok? && metals != [] ==> MetalModel in r.value && r.value[MetalModel].Int?
    ensures metals == [] ==> r == Ok(out)
    ensures r.Err? ==> r.error.MalformedNumber?
  {
    if metals == [] then Ok(out)
    else
      var n :- ToInts(Groups(metals[|metals| - 1]));
      Ok(out[MetalFree := Int(n[0])][MetalUsed := Int(n[1])]
            [MetalModel := Int(n[2])][MetalContext := Int(n[3])]
            [MetalCompute := Int(n[4])][MetalUnaccounted := Int(n[5])])
  }

  /** The facts `parse_log` extracts from the findall results of its two
      patterns: each group present exactly when its pattern matched. It
      raises exactly when a captured group of a last match does not
      convert. */
  function LogFacts(tputs: seq<Throughput>, metals: seq<MetalBreakdown>): (r: Result<Record>)
    ensures r.Ok? ==> forall k :: k in r.value <==>
      (tputs != [] && k.IsThroughput()) || (metals != [] && k.IsMetal())
    ensures r.Ok? && tputs != [] ==> GenTps in r.value && r.value[GenTps].Num?
    ensures r.Ok? && metals != [] ==> MetalModel in r.value && r.value[MetalModel].Int?
    ensures tputs == [] && metals == [] ==> r == Ok(map[])
    ensures r.Err? <==>
      ThroughputFields(tputs).Err? || (metals != [] && ToInts(Groups(metals[|metals| - 1])).Err?)
    ensures r.Err? ==> r.error.MalformedNumber?
  {
    var t :- ThroughputFields(tputs);
    WithMetal(t, metals)
  }

  /** `parse_log` raises exactly when a rate of the last throughput match
      is not a float literal or a group of the last memory-breakdown match
      is not an integer literal; the rates are converted first, so a bad
      rate is the one reported even when a memory group is bad too. */
  lemma LogFactsRaises(tputs: seq<Throughput>, metals: seq<MetalBreakdown>)
    ensures LogFacts(tputs, metals).Err? <==>
      (tputs != [] && var last := tputs[|tputs| - 1];
        ParseDecimal(last.prompt).None? || ParseDecimal(last.gen).None?)
      || (metals != [] && SomeNotInt(Groups(metals[|metals| - 1])))
    ensures ThroughputFields(tputs).Err? ==> LogFacts(tputs, metals) == ThroughputFields(tputs)
  {
    if metals != [] {
      ToIntsRaisesAtFirst(Groups(metals[|metals| - 1]));
    }
  }

  /** With at least one throughput match, both rates are those of the last
      match, whatever the earlier matches held. */
  lemma LastThroughputWins(tputs: seq<Throughput>, metals: seq<MetalBreakdown>)
    requires tputs != [] && LogFacts(tputs, metals).Ok?
    ensures var last := tputs[|tputs| - 1];
      && ParseDecimal(last.prompt).Some? && ParseDecimal(last.gen).Some?
      && LogFacts(tputs, metals).value[PromptTps] == Num(ParseDecimal(last.prompt).value)
      && LogFacts(tputs, metals).value[GenTps] == Num(ParseDecimal(last.gen).value)
  {
    var t := ThroughputFields(tputs).value;
    assert LogFacts(tputs, metals) == WithMetal(t, metals);
  }

  /** A memory breakdown whose groups are digit strings converts to the
      numbers those strings denote. */
  lemma MetalValues(out: Record, metals: seq<MetalBreakdown>)
    requires metals != []
    requires var last := metals[|metals| - 1];
      && IsDigitGroup(last.free) && IsDigitGroup(last.usedTotal) && IsDigitGroup(last.model)
      && IsDigitGroup(last.context) && IsDigitGroup(last.compute) && IsDigitGroup(last.unaccounted)
    ensures var last := metals[|metals| - 1];
      WithMetal(out, metals) == Ok(out
        [MetalFree := Int(DigitsValue(last.free))][MetalUsed := Int(DigitsValue(last.usedTotal))]
        [MetalModel := Int(DigitsValue(last.model))][MetalContext := Int(DigitsValue(last.context))]
        [MetalCompute := Int(DigitsValue(last.compute))]
        [MetalUnaccounted := Int(DigitsValue(last.unaccounted))])
  {
    var last := metals[|metals| - 1];
    var groups := Groups(last);
    assert forall k :: 0 <= k < |groups| ==> IsDigitGroup(groups[k]);
    ToIntsOfDigits(groups);
    var n := ToInts(groups).value;
    assert n[0] == DigitsValue(groups[0]) && n[1] == DigitsValue(groups[1]);
    assert n[2] == DigitsValue(groups[2]) && n[3] == DigitsValue(groups[3]);
    assert n[4] == DigitsValue(groups[4]) && n[5] == DigitsValue(groups[5]);
  }

  /** With at least one memory-breakdown match whose groups are digit
      strings (as `([0-9]+)` guarantees), the six values are the numbers the
      last match's groups denote, in the order free, used, model, context,
      compute, unaccounted, whatever the earlier matches held. */
  lemma LastMetalWins(tputs: seq<Throughput>, metals: seq<MetalBreakdown>)
    requires metals != [] && ThroughputFields(tputs).Ok?
    requires var last := metals[|metals| - 1];
      && IsDigitGroup(last.free) && IsDigitGroup(last.usedTotal) && IsDigitGroup(last.model)
      && IsDigitGroup(last.context) && IsDigitGroup(last.compute) && IsDigitGroup(last.unaccounted)
    ensures LogFacts(tputs, metals).Ok?
    ensures var r := LogFacts(tputs, metals).value; var last := metals[|metals| - 1];
      && r[MetalFree] == Int(DigitsValue(last.free))
      && r[MetalUsed] == Int(DigitsValue(last.usedTotal))
      && r[MetalModel] == Int(DigitsValue(last.model))
      && r[MetalContext] == Int(DigitsValue(last.context))
      && r[MetalCompute] == Int(DigitsValue(last.compute))
      && r[MetalUnaccounted] == Int(DigitsValue(last.unaccounted))
  {
    var t := ThroughputFields(tputs).value;
    MetalValues(t, metals);
    assert LogFacts(tputs, metals) == WithMetal(t, metals);
  }

  /** A captured count: one or more ASCII digits. */
  predicate IsDigitGroup(g: string) {
    g != [] && AllDigits(g)
  }

  /** `parse_log(log_text)`. The memory-breakdown pattern is not matched
      here: `metals` stands for `RE_METAL.findall(log_text)`. The record is
      built by successive key assignments, as the source does. */
  method ParseLog(logText: string, metals: seq<MetalBreakdown>) returns (r: Result<Record>)
    ensures r == LogFacts(FindAllThroughput(logText, 0), metals)
  {
    var out: Record := map[];
    var tputs := FindAllThroughput(logText, 0);
    if |tputs| > 0 {
      var last := tputs[|tputs| - 1];
      var prompt :- ToFloat(last.prompt);
      out := out[PromptTps := Num(prompt)];
      var gen :- ToFloat(last.gen);
      out := out[GenTps := Num(gen)];
    }
    assert ThroughputFields(tputs) == Ok(out);
    ghost var t := out;
    if |metals| > 0 {
      var n :- ToInts(Groups(metals[|metals| - 1]));
      out := out[MetalFree := Int(n[0])];
      out := out[MetalUsed := Int(n[1])];
      out := out[MetalModel := Int(n[2])];
      out := out[MetalContext := Int(n[3])];
      out := out[MetalCompute := Int(n[4])];
      out := out[MetalUnaccounted := Int(n[5])];
    }
    assert WithMetal(t, metals) == Ok(out);
    return Ok(out);
  }

  /** Text in which no `[` is followed by `\s*Prompt:`, and without a
      memory-breakdown line, gives an empty fact record. */
  lemma NoMatchNoFacts(logText: string)
    requires forall k :: 0 <= k < |logText| && logText[k] == '[' ==> !PromptAfter(logText, k)
    ensures LogFacts(FindAllThroughput(logText, 0), []) == Ok(map[])
  {
    NoPromptNoThroughput(logText, 0);
  }

  // ---------------------------------------------------------------------
  // parse_config
  // ---------------------------------------------------------------------

  /** The entry one configuration line contributes: the text before its
      first `=` and the text after it, both stripped; nothing for a line
      without `=`. */
  function ConfigEntry(line: string): (e: Option<(string, string)>)
    ensures e.None? <==> '=' !in line
    ensures e.Some? ==> '=' !in e.value.0
    ensures e.Some? ==> IsTrimmed(e.value.0) && IsTrimmed(e.value.1)
  {
    match SplitAtFirst(line, '=')
    case None => None
    case Some((k, v)) =>
      StripKeepsMiddle(k);
      Some((Strip(k), Strip(v)))
  }

  /** Only the first `=` separates: the value keeps any later `=`, and both
      sides are stripped. */
  lemma ConfigEntrySplitsAtFirst(key: string, value: string)
    requires '=' !in key
    ensures ConfigEntry(key + "=" + value) == Some((Strip(key), Strip(value)))
  {
    SplitAtFirstOf(key, '=', value);
  }

  /** The entries of the lines that hold `=`, in line order: at most one per
      line, each key stripped and free of `=`, each value stripped. */
  function Entries(lines: seq<string>): (es: seq<(string, string)>)
    ensures |es| <= |lines|
    ensures forall e :: e in es ==> '=' !in e.0 && IsTrimmed(e.0) && IsTrimmed(e.1)
  {
    if lines == [] then []
    else
      var last := lines[|lines| - 1];
      Entries(lines[..|lines| - 1]) + if '=' in last then [ConfigEntry(last).value] else []
  }

  /** The dict that setting each entry in turn produces: every key it maps
      is mapped to a value some entry gave it. */
  function Assign(entries: seq<(string, string)>): (d: map<string, string>)
    ensures forall k :: k in d ==> (k, d[k]) in entries
  {
    if entries == [] then map[]
    else
      var last := entries[|entries| - 1];
      Assign(entries[..|entries| - 1])[last.0 := last.1]
  }

  /** The configuration the lines describe: keys and values are stripped
      and no key holds `=`. */
  function ConfigOf(lines: seq<string>): (config: map<string, string>)
    ensures forall k :: k in config ==> '=' !in k && IsTrimmed(k) && IsTrimmed(config[k])
  {
    var entries := Entries(lines);
    var config := Assign(entries);
    assert forall k :: k in config ==> (k, config[k]) in entries;
    config
  }

  /** A key is configured exactly when some entry sets it. */
  lemma {:induction false} AssignKeys(entries: seq<(string, string)>, key: string)
    ensures key in Assign(entries) <==> exists j :: 0 <= j < |entries| && entries[j].0 == key
  {
    if entries != [] {
      var init := entries[..|entries| - 1];
      AssignKeys(init, key);
      if exists j :: 0 <= j < |init| && init[j].0 == key {
        var j :| 0 <= j < |init| && init[j].0 == key;
        assert entries[j] == init[j];
      }
      if exists j :: 0 <= j < |entries| && entries[j].0 == key {
        var j :| 0 <= j < |entries| && entries[j].0 == key;
        if j < |init| { assert init[j] == entries[j]; }
      }
    }
  }

  /** The last entry for a key gives its value. */
  lemma {:induction false} AssignLastWins(entries: seq<(string, string)>, j: nat)
    requires j < |entries|
    requires forall i :: j < i < |entries| ==> entries[i].0 != entries[j].0
    ensures entries[j].0 in Assign(entries) && Assign(entries)[entries[j].0] == entries[j].1
  {
    var init := entries[..|entries| - 1];
    if j < |init| {
      assert init[j] == entries[j];
      assert forall i :: j < i < |init| ==> init[i] == entries[i];
      AssignLastWins(init, j);
    }
  }

  /** The entries of two blocks of lines are the entries of each, in order. */
  lemma {:induction false} EntriesAppend(a: seq<string>, b: seq<string>)
    ensures Entries(a + b) == Entries(a) + Entries(b)
    decreases |b|
  {
    if b == [] {
      assert a + b == a;
    } else {
      var init := b[..|b| - 1];
      EntriesAppend(a, init);
      assert (a + b)[..|a + b| - 1] == a + init;
      assert (a + b)[|a + b| - 1] == b[|b| - 1];
    }
  }

  /** A line without `=` changes nothing, wherever it stands. */
  lemma ConfigSkipsPlainLine(before: seq<string>, line: string, after: seq<string>)
    requires '=' !in line
    ensures ConfigOf(before + [line] + after) == ConfigOf(before + after)
  {
    assert [line][..0] == [];
    assert Entries([line]) == [];
    calc {
      Entries(before + [line] + after);
      { EntriesAppend(before + [line], after); }
      Entries(before + [line]) + Entries(after);
      { EntriesAppend(before, [line]); }
      Entries(before) + Entries(after);
      { EntriesAppend(before, after); }
      Entries(before + after);
    }
  }

  /** `parse_config`: each line with `=` sets its stripped key to its
      stripped value in the dict, in line order. */
  method ParseConfig(configText: string) returns (cfg: map<string, string>)
    ensures cfg == ConfigOf(SplitLines(configText))
  {
    var lines := SplitLines(configText);
    cfg := map[];
    for i := 0 to |lines|
      invariant cfg == Assign(Entries(lines[..i]))
    {
      assert lines[..i + 1][..i] == lines[..i];
      var line := lines[i];
      ghost var done := Entries(lines[..i]);
      assert lines[..i + 1][i] == line;
      if '=' in line {
        var (k, v) := SplitAtFirst(line, '=').value;
        cfg := cfg[Strip(k) := Strip(v)];
        assert ConfigEntry(line) == Some((Strip(k), Strip(v)));
        ghost var now := done + [(Strip(k), Strip(v))];
        assert Entries(lines[..i + 1]) == now;
        assert now[..|now| - 1] == done && now[|now| - 1] == (Strip(k), Strip(v));
        assert Assign(now) == Assign(done)[Strip(k) := Strip(v)];
        assert cfg == Assign(Entries(lines[..i + 1]));
      } else {
        assert Entries(lines[..i + 1]) == done + [];
        assert done + [] == done;
        assert cfg == Assign(Entries(lines[..i + 1]));
      }
    }
    assert lines[..|lines|] == lines;
  }

  // ---------------------------------------------------------------------
  // The summary record of main
  // ---------------------------------------------------------------------

  /** `int(cfg.get(key, "0") or 0)`: an absent or empty value counts as 0;
      any other value must be an integer literal. */
  function ConfigInt(cfg: map<string, string>, key: string): (r: Result<int>)
    ensures key !in cfg || cfg[key] == "" ==> r == Ok(0)
    ensures key in cfg && cfg[key] != "" ==>
      (r.Err? <==> ParseInt(cfg[key]).None?) && (r.Err? ==> r.error == MalformedNumber(cfg[key]))
  {
    var text := Get(cfg, key, "0");
    if text == "" then Ok(0) else ToInt(text)
  }

  /** A value of decimal digits converts to the integer it denotes. */
  lemma ConfigIntOfDigits(cfg: map<string, string>, key: string)
    requires key in cfg && cfg[key] != "" && AllDigits(cfg[key])
    ensures ConfigInt(cfg, key) == Ok(DigitsValue(cfg[key]))
  {
    ParseIntOfDigits(cfg[key]);
  }

  /** The summary record: the run directory, the tag, the context size, the
      generation token count and the model path, with the parsed log facts
      spread over them. It raises only on a malformed `ctx` or `gen_tokens`,
      and `ctx` is converted first. */
  function Summary(runDir: string, cfg: map<string, string>, parsed: Record): (r: Result<Record>)
    ensures r.Ok? <==> ConfigInt(cfg, "ctx").Ok? && ConfigInt(cfg, "gen_tokens").Ok?
    ensures r.Err? ==> r == if ConfigInt(cfg, "ctx").Err? then Err(ConfigInt(cfg, "ctx").error)
                            else Err(ConfigInt(cfg, "gen_tokens").error)
  {
    var ctx :- ConfigInt(cfg, "ctx");
    var genTokens :- ConfigInt(cfg, "gen_tokens");
    Ok(map[
      RunDir := Str(runDir),
      Tag := Str(Get(cfg, "tag", "")),
      Ctx := Int(ctx),
      GenTokens := Int(genTokens),
      ModelPath := Str(Get(cfg, "model", ""))] + parsed)
  }

  /** The summary holds the five fixed fields and the parsed facts, and a
      parsed fact wins over a fixed field of the same name. */
  lemma SummaryFields(runDir: string, cfg: map<string, string>, parsed: Record)
    requires Summary(runDir, cfg, parsed).Ok?
    ensures var r := Summary(runDir, cfg, parsed).value;
      && (forall k :: k in r <==> k.IsFixed() || k in parsed)
      && (forall k :: k in parsed ==> r[k] == parsed[k])
  {
    var ctx := ConfigInt(cfg, "ctx").value;
    var genTokens := ConfigInt(cfg, "gen_tokens").value;
    var fixed := map[
      RunDir := Str(runDir),
      Tag := Str(Get(cfg, "tag", "")),
      Ctx := Int(ctx),
      GenTokens := Int(genTokens),
      ModelPath := Str(Get(cfg, "model", ""))];
    assert Summary(runDir, cfg, parsed) == Ok(fixed + parsed);
  }

  /** Without a parsed fact of the same name, each fixed field is what the
      configuration says: the tag and model path as written (empty when
      absent), the context size and token count as integers. */
  lemma SummaryFixedFields(runDir: string, cfg: map<string, string>, parsed: Record)
    requires Summary(runDir, cfg, parsed).Ok?
    requires forall k :: k in parsed ==> !k.IsFixed()
    ensures var r := Summary(runDir, cfg, parsed).value;
      && r.Keys >= {RunDir, Tag, Ctx, GenTokens, ModelPath}
      && r[RunDir] == Str(runDir)
      && r[Tag] == Str(if "tag" in cfg then cfg["tag"] else "")
      && r[Ctx] == Int(ConfigInt(cfg, "ctx").value)
      && r[GenTokens] == Int(ConfigInt(cfg, "gen_tokens").value)
      && r[ModelPath] == Str(if "model" in cfg then cfg["model"] else "")
  {
    var ctx := ConfigInt(cfg, "ctx").value;
    var genTokens := ConfigInt(cfg, "gen_tokens").value;
    var fixed := map[
      RunDir := Str(runDir),
      Tag := Str(Get(cfg, "tag", "")),
      Ctx := Int(ctx),
      GenTokens := Int(genTokens),
      ModelPath := Str(Get(cfg, "model", ""))];
    assert Summary(runDir, cfg, parsed) == Ok(fixed + parsed);
  }

  /** The summary of a run's configuration text and log text, stored under
      the resolved run directory. Parsing raises only on malformed
      numbers. */
  function RunSummary(runDir: string, configText: string, logText: string,
                      metals: seq<MetalBreakdown>): (r: Result<Record>)
    ensures r.Err? ==> r.error.MalformedNumber?
  {
    var parsed :- LogFacts(FindAllThroughput(logText, 0), metals);
    Summary(runDir, ConfigOf(SplitLines(configText)), parsed)
  }

  /** The two files `main` reads from the run directory. */
  const LogName: string := "llama_output.log"
  const ConfigName: string := "config.txt"

  /** `main(run_dir)` up to writing `summary.json`: the log must exist, then
      the configuration, and only then are both parsed. Whether each file
      exists and what it holds are inputs, and `runDir` is the resolved run
      directory. */
  function Main(runDir: string, logExists: bool, configExists: bool,
                configText: string, logText: string, metals: seq<MetalBreakdown>): (r: Result<Record>)
    ensures (r.Err? && r.error.MissingFile?) <==> !logExists || !configExists
    ensures r.Err? && r.error.MissingFile? ==>
      r.error.name == if logExists then ConfigName else LogName
    ensures logExists && configExists ==> r == RunSummary(runDir, configText, logText, metals)
  {
    if !logExists then Err(MissingFile(LogName))
    else if !configExists then Err(MissingFile(ConfigName))
    else RunSummary(runDir, configText, logText, metals)
  }

  /** The summary of parsed log facts holds the five fixed fields, the
      throughput rates exactly when there was a throughput match, and the
      memory breakdown exactly when there was a breakdown match; the fixed
      fields keep their types. */
  lemma FactsSummaryShape(runDir: string, cfg: map<string, string>, tputs: seq<Throughput>,
                          metals: seq<MetalBreakdown>, parsed: Record)
    requires LogFacts(tputs, metals) == Ok(parsed) && Summary(runDir, cfg, parsed).Ok?
    ensures var r := Summary(runDir, cfg, parsed).value;
      && (forall k :: k in r <==>
            k.IsFixed() || (tputs != [] && k.IsThroughput()) || (metals != [] && k.IsMetal()))
      && r[Tag].Str? && r[ModelPath].Str? && r[Ctx].Int? && r[GenTokens].Int?
      && (tputs != [] ==> r[GenTps].Num?) && (metals != [] ==> r[MetalModel].Int?)
  {
    forall k | k in parsed ensures !k.IsFixed() {
      assert k.IsThroughput() || k.IsMetal();
    }
    SummaryFields(runDir, cfg, parsed);
    SummaryFixedFields(runDir, cfg, parsed);
  }

  /** The same shape for a whole run, from its configuration and log text. */
  lemma SummaryShape(runDir: string, configText: string, logText: string,
                     metals: seq<MetalBreakdown>)
    requires RunSummary(runDir, configText, logText, metals).Ok?
    ensures var r := RunSummary(runDir, configText, logText, metals).value;
      var tputs := FindAllThroughput(logText, 0);
      && (forall k :: k in r <==>
            k.IsFixed() || (tputs != [] && k.IsThroughput()) || (metals != [] && k.IsMetal()))
      && r[Tag].Str? && r[ModelPath].Str? && r[Ctx].Int? && r[GenTokens].Int?
      && (tputs != [] ==> r[GenTps].Num?) && (metals != [] ==> r[MetalModel].Int?)
  {
    var tputs := FindAllThroughput(logText, 0);
    var parsed := LogFacts(tputs, metals).value;
    var cfg := ConfigOf(SplitLines(configText));
    FactsSummaryShape(runDir, cfg, tputs, metals, parsed);
  }

  /** `main` for one run, with the files' existence and contents given:
      check both files, parse the configuration, parse the log, build the
      summary. */
  method SummarizeRun(runDir: string, logExists: bool, configExists: bool,
                      configText: string, logText: string, metals: seq<MetalBreakdown>)
    returns (r: Result<Record>)
    ensures r == Main(runDir, logExists, configExists, configText, logText, metals)
  {
    if !logExists {
      return Err(MissingFile(LogName));
    }
    if !configExists {
      return Err(MissingFile(ConfigName));
    }
    var cfg := ParseConfig(configText);
    var parsed :- ParseLog(logText, metals);
    r := Summary(runDir, cfg, parsed);
  }
}
