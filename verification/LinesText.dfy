/** Text as lines, and back. */
module LinesText {
  import opened Opcodes
  import opened Text

  /** The lines from the k-th on, each with a line feed. */
  function Unlines(ls: seq<string>, k: nat): string
    requires k <= |ls|
    decreases |ls| - k
  {
    if k == |ls| then "" else ls[k] + "\n" + Unlines(ls, k + 1)
  }

  /** A carriage return before the line feed belongs to the line ending. */
  function WithoutCr(s: string): string {
    if s != "" && s[|s| - 1] == '\r' then s[..|s| - 1] else s
  }

  /** Splits at line feeds; what follows the last one is a line unless it is empty. */
  function LinesFrom(s: string, start: nat, i: nat, done: seq<string>): seq<string>
    requires start <= i <= |s|
    decreases |s| - i
  {
    if i == |s| then (if start == i then done else done + [s[start..]])
    else if s[i] == '\n' then LinesFrom(s, i + 1, i + 1, done + [WithoutCr(s[start..i])])
    else LinesFrom(s, start, i + 1, done)
  }

  function Lines(s: string): seq<string> { LinesFrom(s, 0, 0, []) }

  /** No line feed inside, no carriage return at the end. */
  predicate OneLine(s: string) {
    '\n' !in s && (s == "" || s[|s| - 1] != '\r')
  }

  predicate AllOneLine(ls: seq<string>) {
    forall i :: 0 <= i < |ls| ==> OneLine(ls[i])
  }

  lemma {:induction false} SkipToFeed(s: string, start: nat, i: nat, j: nat, done: seq<string>)
    requires start <= i <= j <= |s| && forall k :: i <= k < j ==> s[k] != '\n'
    ensures LinesFrom(s, start, i, done) == LinesFrom(s, start, j, done)
    decreases j - i
  {
    if i < j {
      SkipToFeed(s, start, i + 1, j, done);
    }
  }

  lemma {:induction false} NextLine(pre: string, l: string, rest: string, done: seq<string>)
    requires OneLine(l)
    ensures var s := pre + (l + "\n" + rest); var i := |pre|;
            LinesFrom(s, i, i, done) == LinesFrom(s, i + |l| + 1, i + |l| + 1, done + [l])
  {
    var s, i := pre + (l + "\n" + rest), |pre|;
    forall k | i <= k < i + |l|
      ensures s[k] != '\n'
    {
      assert s[k] == l[k - i];
    }
    SkipToFeed(s, i, i, i + |l|, done);
    assert s[i..i + |l|] == l && s[i + |l|] == '\n';
  }

  lemma {:induction false} Unbracket(pre: string, l: string, rest: string)
    ensures pre + (l + "\n" + rest) == pre + l + "\n" + rest
  {
  }

  lemma {:induction false} LinesFromUnlines(pre: string, ls: seq<string>, k: nat)
    requires k <= |ls| && AllOneLine(ls)
    ensures LinesFrom(pre + Unlines(ls, k), |pre|, |pre|, ls[..k]) == ls
    decreases |ls| - k
  {
    if k == |ls| {
      assert ls[..k] == ls;
    } else {
      var rest := Unlines(ls, k + 1);
      var pre' := pre + ls[k] + "\n";
      NextLine(pre, ls[k], rest, ls[..k]);
      Unbracket(pre, ls[k], rest);
      assert ls[..k] + [ls[k]] == ls[..k + 1];
      LinesFromUnlines(pre', ls, k + 1);
    }
  }

  /** Lines written out are read back. */
  lemma {:induction false} LinesRoundTrip(ls: seq<string>)
    requires AllOneLine(ls)
    ensures Lines(Unlines(ls, 0)) == ls
  {
    LinesFromUnlines("", ls, 0);
    assert "" + Unlines(ls, 0) == Unlines(ls, 0) && ls[..0] == [];
  }

  // ----- Indented lines -----

  /** A line as printed: its indentation and what follows. */
  datatype Line = Line(indent: nat, text: string)

  function Blanks(n: nat): (s: string)
    ensures |s| == n && AllSpaces(s) && forall c :: c in s ==> c == ' '
  {
    seq(n, _ => ' ')
  }

  function Written(l: Line): string { Blanks(l.indent) + l.text }

  function WrittenAll(ls: seq<Line>): seq<string> {
    seq(|ls|, i requires 0 <= i < |ls| => Written(ls[i]))
  }

  function TextsOf(ls: seq<Line>): seq<string> {
    seq(|ls|, i requires 0 <= i < |ls| => ls[i].text)
  }

  function TrimAll(ts: seq<string>): seq<string> {
    seq(|ts|, i requires 0 <= i < |ts| => Trim(ts[i]))
  }

  /** Empty and not indented, or with no white space at the ends and no line feed. */
  predicate ProperLine(l: Line) {
    (l == Line(0, "") || Tight(l.text)) && '\n' !in l.text
  }

  predicate ProperLines(ls: seq<Line>) {
    forall i :: 0 <= i < |ls| ==> ProperLine(ls[i])
  }

  lemma {:induction false} ProperIsOneLine(l: Line)
    requires ProperLine(l)
    ensures OneLine(Written(l)) && Trim(Written(l)) == l.text
  {
    if l.text == "" {
      TrimBlank(Written(l));
    } else {
      TrimIndented(Blanks(l.indent), l.text);
    }
  }

  /** Proper lines written out and read back, without their indentation. */
  lemma {:induction false} ProperRoundTrip(ls: seq<Line>)
    requires ProperLines(ls)
    ensures TrimAll(Lines(Unlines(WrittenAll(ls), 0))) == TextsOf(ls)
  {
    var ws := WrittenAll(ls);
    forall i | 0 <= i < |ls|
      ensures OneLine(ws[i]) && Trim(ws[i]) == ls[i].text
    {
      ProperIsOneLine(ls[i]);
    }
    LinesRoundTrip(ws);
  }

  // ----- Reading blocks of lines, white space trimmed -----

  /** Where parsing went on, or how it failed; a syntax error carries the number of lines read. */
  datatype ParseResult<+T> = Parsed(value: T, pos: nat) | UnexpectedEof | Syntax(line: nat)

  function SkipBlank(ts: seq<string>, pos: nat): (r: nat)
    requires pos <= |ts|
    ensures pos <= r <= |ts|
    decreases |ts| - pos
  {
    if pos < |ts| && ts[pos] == "" then SkipBlank(ts, pos + 1) else pos
  }

  /** Lines up to a closing brace, each taken in by `step`. */
  function ReadBlock<S>(ts: seq<string>, pos: nat, skip: bool, step: (string, S) -> Option<S>, s: S): (r: ParseResult<S>)
    requires pos <= |ts|
    ensures r.Parsed? ==> pos < r.pos <= |ts|
    decreases |ts| - pos
  {
    var at := if skip then SkipBlank(ts, pos) else pos;
    if at == |ts| then UnexpectedEof
    else if ts[at] == "}" then Parsed(s, at + 1)
    else
      match step(ts[at], s)
      case None => Syntax(at + 1)
      case Some(s') => ReadBlock(ts, at + 1, skip, step, s')
  }

  lemma {:induction false} ReadLine<S>(ts: seq<string>, pos: nat, skip: bool, step: (string, S) -> Option<S>, s: S, s': S)
    requires pos < |ts| && ts[pos] != "" && ts[pos] != "}" && step(ts[pos], s) == Some(s')
    ensures ReadBlock(ts, pos, skip, step, s) == ReadBlock(ts, pos + 1, skip, step, s')
  {
  }

  lemma {:induction false} ReadBlankLine<S>(ts: seq<string>, pos: nat, step: (string, S) -> Option<S>, s: S)
    requires pos < |ts| && ts[pos] == ""
    ensures ReadBlock(ts, pos, true, step, s) == ReadBlock(ts, pos + 1, true, step, s)
  {
  }

  lemma {:induction false} ReadClose<S>(ts: seq<string>, pos: nat, skip: bool, step: (string, S) -> Option<S>, s: S)
    requires pos < |ts| && ts[pos] == "}"
    ensures ReadBlock(ts, pos, skip, step, s) == Parsed(s, pos + 1)
  {
  }

  /** Lines that take the reader through the states `states`. */
  predicate Takes<S(==)>(ls: seq<string>, step: (string, S) -> Option<S>, states: seq<S>) {
    |states| == |ls| + 1
    && forall i :: 0 <= i < |ls| ==> ls[i] != "" && ls[i] != "}" && step(ls[i], states[i]) == Some(states[i + 1])
  }

  predicate LinesAt(ts: seq<string>, pos: nat, ls: seq<string>) {
    pos + |ls| <= |ts| && forall i :: 0 <= i < |ls| ==> ts[pos + i] == ls[i]
  }

  lemma {:induction false} LinesApart(ts: seq<string>, pos: nat, xs: seq<string>, ys: seq<string>)
    requires LinesAt(ts, pos, xs + ys)
    ensures LinesAt(ts, pos, xs) && LinesAt(ts, pos + |xs|, ys)
  {
    assert forall i :: 0 <= i < |xs| ==> (xs + ys)[i] == xs[i];
    forall i | 0 <= i < |ys|
      ensures ts[pos + |xs| + i] == ys[i]
    {
      assert (xs + ys)[|xs| + i] == ys[i];
      assert ts[pos + (|xs| + i)] == (xs + ys)[|xs| + i];
    }
  }

  lemma {:induction false} ReadLines<S>(ts: seq<string>, pos: nat, skip: bool, ls: seq<string>, step: (string, S) -> Option<S>, states: seq<S>, i: nat)
    requires Takes(ls, step, states) && LinesAt(ts, pos, ls) && i <= |ls|
    ensures ReadBlock(ts, pos + i, skip, step, states[i]) == ReadBlock(ts, pos + |ls|, skip, step, states[|ls|])
    decreases |ls| - i
  {
    if i < |ls| {
      assert ts[pos + i] == ls[i];
      ReadLine(ts, pos + i, skip, step, states[i], states[i + 1]);
      ReadLines(ts, pos, skip, ls, step, states, i + 1);
    }
  }

  /** A whole block: its lines, then the closing brace. */
  lemma {:induction false} ReadWhole<S>(ts: seq<string>, pos: nat, skip: bool, ls: seq<string>, step: (string, S) -> Option<S>, states: seq<S>, first: S, last: S)
    requires Takes(ls, step, states) && LinesAt(ts, pos, ls) && pos + |ls| < |ts| && ts[pos + |ls|] == "}"
    requires first == states[0] && last == states[|ls|]
    ensures ReadBlock(ts, pos, skip, step, first) == Parsed(last, pos + |ls| + 1)
  {
    ReadLines(ts, pos, skip, ls, step, states, 0);
    ReadClose(ts, pos + |ls|, skip, step, last);
  }

  /** Lines, then a blank one. */
  lemma {:induction false} ReadToBlank<S>(ts: seq<string>, pos: nat, ls: seq<string>, step: (string, S) -> Option<S>, states: seq<S>, first: S, last: S)
    requires Takes(ls, step, states) && LinesAt(ts, pos, ls) && pos + |ls| < |ts| && ts[pos + |ls|] == ""
    requires first == states[0] && last == states[|ls|]
    ensures ReadBlock(ts, pos, true, step, first) == ReadBlock(ts, pos + |ls| + 1, true, step, last)
  {
    ReadLines(ts, pos, true, ls, step, states, 0);
    ReadBlankLine(ts, pos + |ls|, step, last);
  }
}
