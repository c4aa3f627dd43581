/** Operand lists, syllables and the lines of a bundle. */
module SyllableText {
  import opened Collections
  import opened Opcodes
  import opened Text
  import opened Numerals
  import opened Asm
  import opened OperandText

  /** The texts from the k-th on, separated by commas. */
  function Joined(ts: seq<string>, k: nat): string
    requires k < |ts|
    decreases |ts| - k
  {
    if k == |ts| - 1 then ts[k] else ts[k] + ", " + Joined(ts, k + 1)
  }

  function Texts(ops: seq<Operand>): seq<string> {
    seq(|ops|, i requires 0 <= i < |ops| => ShowOperand(ops[i]))
  }

  function ShowSyllable(syl: AsmSyllable): string {
    if syl.operands == [] then syl.opcode else syl.opcode + " " + Joined(Texts(syl.operands), 0)
  }

  /** Cuts at commas outside brackets; `done` are the pieces cut so far. */
  function Cuts(s: string, i: nat, start: nat, depth: int, done: seq<string>): seq<string>
    requires start <= i <= |s|
    decreases |s| - i
  {
    if i == |s| then done + [s[start..]]
    else if s[i] == '[' then Cuts(s, i + 1, start, depth + 1, done)
    else if s[i] == ']' then Cuts(s, i + 1, start, depth - 1, done)
    else if s[i] == ',' && depth == 0 then Cuts(s, i + 1, i + 1, depth, done + [s[start..i]])
    else Cuts(s, i + 1, start, depth, done)
  }

  function ReadPiece(piece: string): Option<Operand> { ParseOperand(Trim(piece)) }

  function ParseEach(pieces: seq<string>): Option<seq<Operand>> {
    ReadEach(pieces, ReadPiece)
  }

  lemma {:induction false} CutsExtend(s: string, i: nat, start: nat, depth: int, done: seq<string>)
    requires start <= i <= |s|
    ensures var r := Cuts(s, i, start, depth, done); |done| < |r| && r[..|done|] == done
    decreases |s| - i
  {
    if i < |s| {
      if s[i] == ',' && depth == 0 {
        var done' := done + [s[start..i]];
        CutsExtend(s, i + 1, i + 1, depth, done');
        var r := Cuts(s, i + 1, i + 1, depth, done');
        assert r[..|done|] == r[..|done'|][..|done|];
      } else {
        CutsExtend(s, i + 1, start, if s[i] == '[' then depth + 1 else if s[i] == ']' then depth - 1 else depth, done);
      }
    }
  }

  /** A bad piece is still there when everything has been cut. */
  lemma {:induction false} BadCut(s: string, i: nat, depth: int, done: seq<string>, piece: string)
    requires i <= |s| && ReadPiece(piece).None?
    ensures ParseEach(Cuts(s, i, i, depth, done + [piece])) == None
  {
    CutsExtend(s, i, i, depth, done + [piece]);
    var r := Cuts(s, i, i, depth, done + [piece]);
    assert r[|done|] == r[..|done + [piece]|][|done|] == piece;
    BadPiece(r, ReadPiece, |done|);
  }

  lemma {:induction false} CutsStep(s: string, i: nat, start: nat, depth: int, done: seq<string>)
    requires start <= i < |s|
    ensures Cuts(s, i, start, depth, done) ==
              if s[i] == ',' && depth == 0 then Cuts(s, i + 1, i + 1, depth, done + [s[start..i]])
              else Cuts(s, i + 1, start, if s[i] == '[' then depth + 1 else if s[i] == ']' then depth - 1 else depth, done)
  {
  }

  /** The loop over the characters, with its counters; it stops at the first piece that is no operand. */
  method ParseOperands(s: string) returns (r: Option<seq<Operand>>)
    ensures r == ParseEach(Cuts(s, 0, 0, 0, []))
  {
    var start, depth, done := 0, 0, [];
    ghost var pieces: seq<string> := [];
    for i := 0 to |s|
      invariant start <= i && Cuts(s, 0, 0, 0, []) == Cuts(s, i, start, depth, pieces)
      invariant ReadsAs(pieces, ReadPiece, done)
    {
      CutsStep(s, i, start, depth, pieces);
      if s[i] == '[' {
        depth := depth + 1;
      } else if s[i] == ']' {
        depth := depth - 1;
      } else if s[i] == ',' && depth == 0 {
        var o := ReadPiece(s[start..i]);
        if o.None? {
          BadCut(s, i + 1, depth, pieces, s[start..i]);
          return None;
        }
        ReadsPush(pieces, ReadPiece, s[start..i], done, o.value);
        done, start, pieces := done + [o.value], i + 1, pieces + [s[start..i]];
      }
    }
    var o := ReadPiece(s[start..]);
    LastPieceRead(pieces, s[start..], done);
    r := if o.Some? then Some(done + [o.value]) else None;
  }

  lemma {:induction false} LastPieceRead(pieces: seq<string>, piece: string, done: seq<Operand>)
    requires ReadsAs(pieces, ReadPiece, done)
    ensures ParseEach(pieces + [piece]) == if ReadPiece(piece).Some? then Some(done + [ReadPiece(piece).value]) else None
  {
    if ReadPiece(piece).None? {
      BadPiece(pieces + [piece], ReadPiece, |pieces|);
    } else {
      ReadsPush(pieces, ReadPiece, piece, done, ReadPiece(piece).value);
      ReadsAsIsRead(pieces + [piece], ReadPiece, done + [ReadPiece(piece).value]);
    }
  }

  function ParseSyllable(s: string): Option<AsmSyllable> {
    var (opcode, rest) := match SplitOnce(s, " ") case Some((op, r)) => (op, Trim(r)) case None => (s, "");
    if rest == "" then Some(AsmSyllable(opcode, []))
    else
      match ParseEach(Cuts(rest, 0, 0, 0, []))
      case Some(ops) => Some(AsmSyllable(opcode, ops))
      case None => None
  }

  // ----- Scanning over one operand -----

  predicate Flat(c: char) { c !in {',', '[', ']'} }

  lemma {:induction false} CutsFlat(s: string, i: nat, j: nat, start: nat, depth: int, done: seq<string>)
    requires start <= i <= j <= |s| && forall k :: i <= k < j ==> Flat(s[k])
    ensures Cuts(s, i, start, depth, done) == Cuts(s, j, start, depth, done)
    decreases j - i
  {
    if i < j {
      CutsFlat(s, i + 1, j, start, depth, done);
    }
  }

  /** t stands in s at position i. */
  predicate StandsAt(s: string, i: nat, t: string) {
    i + |t| <= |s| && forall k :: 0 <= k < |t| ==> s[i + k] == t[k]
  }

  /** A word, or a bracket around flat text. */
  predicate Closed(t: string) {
    || (t != "" && forall k :: 0 <= k < |t| ==> Flat(t[k]))
    || (|t| >= 2 && t[0] == '[' && t[|t| - 1] == ']' && forall k :: 0 < k < |t| - 1 ==> Flat(t[k]))
  }

  lemma {:induction false} CutsClosed(s: string, i: nat, t: string, start: nat, done: seq<string>)
    requires start <= i && StandsAt(s, i, t) && Closed(t)
    ensures Cuts(s, i, start, 0, done) == Cuts(s, i + |t|, start, 0, done)
  {
    forall k | i <= k < i + |t|
      ensures s[k] == t[k - i]
    {
      assert s[i + (k - i)] == t[k - i];
    }
    if t[0] != '[' {
      CutsFlat(s, i, i + |t|, start, 0, done);
    } else {
      var last := i + |t| - 1;
      assert s[i] == t[0] && s[last] == t[|t| - 1];
      CutsFlat(s, i + 1, last, start, 1, done);
    }
  }

  lemma {:induction false} WordIsFlat(s: string)
    requires Word(s)
    ensures Closed(s) && Tight(s)
  {
    assert forall k :: 0 <= k < |s| ==> WordChar(s[k]) && Flat(s[k]);
  }

  lemma {:induction false} RegisterIsWord(n: nat, c: char)
    requires WordChar(c)
    ensures Word([c] + Show(n, 10))
  {
    ShownIsWord(n, 10);
    var s, t := [c] + Show(n, 10), Show(n, 10);
    assert forall i :: 0 < i < |s| ==> s[i] == t[i - 1];
  }

  lemma {:induction false} ShownIntIsWord(n: int)
    ensures Word(ShowInt(n))
  {
    if n < 0 {
      RegisterIsWord(-n, '-');
    } else {
      ShownIsWord(n, 10);
    }
  }

  lemma {:induction false} FlatConcat(a: string, b: string)
    requires (forall k :: 0 <= k < |a| ==> Flat(a[k])) && (forall k :: 0 <= k < |b| ==> Flat(b[k]))
    ensures forall k :: 0 <= k < |a + b| ==> Flat((a + b)[k])
  {
  }

  lemma {:induction false} AddressIsFlat(base: nat, offset: int)
    ensures forall k :: 0 <= k < |ShowAddress(base, offset)| ==> Flat(ShowAddress(base, offset)[k])
  {
    var r := "r" + Show(base, 10);
    RegisterIsWord(base, 'r');
    assert forall k :: 0 <= k < |r| ==> WordChar(r[k]);
    if offset != 0 {
      var h := ShowHex(if offset > 0 then offset else -offset);
      HexText(if offset > 0 then offset else -offset);
      assert forall k :: 0 <= k < |h| ==> WordChar(h[k]);
      FlatConcat(r, if offset > 0 then " + " else " - ");
      FlatConcat(r + if offset > 0 then " + " else " - ", h);
    }
  }

  lemma {:induction false} ShownIsClosed(o: Operand)
    requires Printable(o)
    ensures Closed(ShowOperand(o)) && Tight(ShowOperand(o))
  {
    match o
    case RegOp(n) => RegisterIsWord(n, 'r'); WordIsFlat(ShowOperand(o));
    case PredOp(n) => RegisterIsWord(n, 'p'); WordIsFlat(ShowOperand(o));
    case ImmOp(n) => ShownIntIsWord(n); WordIsFlat(ShowOperand(o));
    case MemAddr(base, offset) =>
      AddressIsFlat(base, offset);
      var a := ShowAddress(base, offset);
      var t := "[" + a + "]";
      assert forall k :: 0 < k < |t| - 1 ==> t[k] == a[k - 1];
    case LabelOp(s) => WordIsFlat(s);
  }

  // ----- A whole list -----

  predicate AllPrintable(ops: seq<Operand>) {
    forall i :: 0 <= i < |ops| ==> Printable(ops[i])
  }

  lemma {:induction false} StandsWhole(s: string, i: nat, a: string, b: string)
    requires StandsAt(s, i, a + b)
    ensures StandsAt(s, i, a) && StandsAt(s, i + |a|, b)
  {
    assert forall k :: 0 <= k < |a| ==> (a + b)[k] == a[k];
    forall k | 0 <= k < |b|
      ensures s[i + |a| + k] == b[k]
    {
      assert (a + b)[|a| + k] == b[k];
      assert s[i + (|a| + k)] == (a + b)[|a| + k];
    }
  }

  /** The texts from the k-th on, as they are cut out. */
  function CutTexts(ts: seq<string>, k: nat, first: string): seq<string>
    requires k < |ts|
    decreases |ts| - k
  {
    if k == |ts| - 1 then [first + ts[k]] else [first + ts[k]] + CutTexts(ts, k + 1, " ")
  }

  predicate AllClosed(ts: seq<string>) {
    forall i :: 0 <= i < |ts| ==> Closed(ts[i])
  }

  /** What stands between the last cut and i. */
  predicate Gap(s: string, start: nat, i: nat, first: string) {
    start <= i <= |s| && s[start..i] == first
  }

  lemma {:induction false} CutPiece(s: string, start: nat, i: nat, t: string, first: string)
    requires Gap(s, start, i, first) && StandsAt(s, i, t)
    ensures s[start..i + |t|] == first + t
  {
    forall k | 0 <= k < |t|
      ensures s[start..i + |t|][i - start + k] == t[k]
    {
      assert s[i + k] == t[k];
    }
    forall k | 0 <= k < |first|
      ensures s[start..i + |t|][k] == first[k]
    {
      assert s[start..i][k] == first[k];
    }
  }

  lemma {:induction false} CutsNext(s: string, i: nat, start: nat, t: string, first: string, done: seq<string>)
    requires Gap(s, start, i, first) && StandsAt(s, i, t) && Closed(t)
    requires i + |t| + 1 < |s| && s[i + |t|] == ',' && s[i + |t| + 1] == ' '
    ensures Cuts(s, i, start, 0, done) == Cuts(s, i + |t| + 2, i + |t| + 1, 0, done + [first + t])
  {
    CutsClosed(s, i, t, start, done);
    CutPiece(s, start, i, t, first);
    var comma := i + |t|;
    assert Cuts(s, comma, start, 0, done) == Cuts(s, comma + 1, comma + 1, 0, done + [first + t]);
  }

  /** Cutting joined texts gives them back, each but the first with the space that follows the comma. */
  lemma {:induction false} CutsJoined(s: string, i: nat, start: nat, ts: seq<string>, k: nat, first: string, done: seq<string>)
    requires k < |ts| && AllClosed(ts) && Gap(s, start, i, first)
    requires StandsAt(s, i, Joined(ts, k)) && i + |Joined(ts, k)| == |s|
    ensures Cuts(s, i, start, 0, done) == done + CutTexts(ts, k, first)
    decreases |ts| - k
  {
    var t := ts[k];
    if k == |ts| - 1 {
      CutsClosed(s, i, t, start, done);
      CutPiece(s, start, i, t, first);
      assert s[start..i + |t|] == s[start..];
    } else {
      ShownParts(s, i, t, Joined(ts, k + 1));
      CutsNext(s, i, start, t, first, done);
      SpaceGap(s, i + |t|);
      CutsJoined(s, i + |t| + 2, i + |t| + 1, ts, k + 1, " ", done + [first + t]);
      Reassociate(done, [first + t], CutTexts(ts, k + 1, " "));
    }
  }

  lemma {:induction false} SpaceGap(s: string, comma: nat)
    requires comma + 1 < |s| && s[comma + 1] == ' '
    ensures Gap(s, comma + 1, comma + 2, " ")
  {
  }

  lemma {:induction false} CutsOfJoined(ts: seq<string>)
    requires ts != [] && AllClosed(ts)
    ensures Cuts(Joined(ts, 0), 0, 0, 0, []) == CutTexts(ts, 0, "")
  {
    CutsJoined(Joined(ts, 0), 0, 0, ts, 0, "", []);
  }

  lemma {:induction false} ShownReads(o: Operand, first: string)
    requires Printable(o) && AllSpaces(first)
    ensures ReadPiece(first + ShowOperand(o)) == Some(o)
  {
    ShownIsClosed(o);
    OperandRoundTrip(o);
    TrimIndented(first, ShowOperand(o));
  }

  lemma {:induction false} PiecesParse(ops: seq<Operand>, k: nat, first: string)
    requires k < |ops| && AllPrintable(ops) && AllSpaces(first)
    ensures ReadsAs(CutTexts(Texts(ops), k, first), ReadPiece, ops[k..])
    decreases |ops| - k
  {
    ShownReads(ops[k], first);
    if k < |ops| - 1 {
      PiecesParse(ops, k + 1, " ");
      var rest, pieces := CutTexts(Texts(ops), k + 1, " "), CutTexts(Texts(ops), k, first);
      assert forall i :: 0 < i < |pieces| ==> pieces[i] == rest[i - 1] && ops[k..][i] == ops[k + 1..][i - 1];
    }
  }

  /** A printed operand list is read back. */
  lemma {:induction false} OperandsRoundTrip(ops: seq<Operand>)
    requires ops != [] && AllPrintable(ops)
    ensures ParseEach(Cuts(Joined(Texts(ops), 0), 0, 0, 0, [])) == Some(ops)
  {
    TextsClosed(ops);
    CutsOfJoined(Texts(ops));
    PiecesParse(ops, 0, "");
    ReadsAsIsRead(CutTexts(Texts(ops), 0, ""), ReadPiece, ops[0..]);
    assert ops[0..] == ops;
  }

  lemma {:induction false} TextsClosed(ops: seq<Operand>)
    requires AllPrintable(ops)
    ensures AllClosed(Texts(ops)) && AllTight(Texts(ops))
  {
    forall i | 0 <= i < |ops|
      ensures Closed(Texts(ops)[i]) && Tight(Texts(ops)[i])
    {
      ShownIsClosed(ops[i]);
    }
  }

  predicate AllTight(ts: seq<string>) {
    forall i :: 0 <= i < |ts| ==> Tight(ts[i])
  }

  lemma {:induction false} ShownParts(s: string, i: nat, t: string, rest: string)
    requires StandsAt(s, i, t + ", " + rest)
    ensures StandsAt(s, i, t) && StandsAt(s, i + |t| + 2, rest) && s[i + |t|] == ',' && s[i + |t| + 1] == ' '
  {
    StandsWhole(s, i, t + ", ", rest);
    StandsWhole(s, i, t, ", ");
    assert s[i + |t| + 0] == ", "[0] && s[i + |t| + 1] == ", "[1];
  }

  lemma {:induction false} JoinedIsTight(ts: seq<string>, k: nat)
    requires k < |ts| && AllTight(ts)
    ensures Tight(Joined(ts, k))
    decreases |ts| - k
  {
    if k < |ts| - 1 {
      JoinedIsTight(ts, k + 1);
    }
  }

  // ----- Syllables -----

  predicate NoSpaceWord(s: string) { s != "" && NoSpaces(s) }

  predicate PrintableSyllable(syl: AsmSyllable) {
    NoSpaceWord(syl.opcode) && AllPrintable(syl.operands)
  }

  /** A printed syllable is read back. */
  lemma {:induction false} SyllableRoundTrip(syl: AsmSyllable)
    requires PrintableSyllable(syl)
    ensures ParseSyllable(ShowSyllable(syl)) == Some(syl) && Tight(ShowSyllable(syl))
  {
    var op := syl.opcode;
    if syl.operands == [] {
      SplitNowhere(op, " ", 0);
    } else {
      var t := Joined(Texts(syl.operands), 0);
      SplitAtFirst(op, " ", t);
      TextsClosed(syl.operands);
      JoinedIsTight(Texts(syl.operands), 0);
      TrimTight(t);
      OperandsRoundTrip(syl.operands);
    }
  }
}
