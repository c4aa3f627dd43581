/** Which texts are read as which syllables. */
module SyllableGrammar {
  import opened Collections
  import opened Opcodes
  import opened Text
  import opened Asm
  import opened SyllableText
  import opened OperandGrammar

  // ----- Cutting at commas outside brackets -----

  /** How many brackets are open after the first i characters. */
  function Depth(s: string, i: nat): int
    requires i <= |s|
  {
    if i == 0 then 0 else Depth(s, i - 1) + if s[i - 1] == '[' then 1 else if s[i - 1] == ']' then -1 else 0
  }

  predicate OuterComma(s: string, i: nat) {
    i < |s| && s[i] == ',' && Depth(s, i) == 0
  }

  predicate NoOuterComma(s: string) {
    forall i: nat :: i < |s| ==> !OuterComma(s, i)
  }

  /** ps are the pieces of s between its outer commas. */
  predicate IsCut(s: string, ps: seq<string>)
    decreases |ps|
  {
    ps != [] &&
    if |ps| == 1 then s == ps[0] && NoOuterComma(s)
    else OuterComma(s, |ps[0]|) && s[..|ps[0]|] == ps[0] && NoOuterComma(ps[0]) && IsCut(s[|ps[0]| + 1..], ps[1..])
  }

  lemma {:induction false} DepthOfPrefix(s: string, n: nat, i: nat)
    requires i <= n <= |s|
    ensures Depth(s[..n], i) == Depth(s, i)
  {
    if i > 0 {
      DepthOfPrefix(s, n, i - 1);
    }
  }

  lemma {:induction false} DepthMoves(s: string, start: nat, i: nat)
    requires start <= i < |s|
    ensures Depth(s[start..], i + 1 - start) == Depth(s[start..], i - start) + if s[i] == '[' then 1 else if s[i] == ']' then -1 else 0
  {
    assert s[start..][i - start] == s[i];
  }

  predicate NoOuterCommaBefore(t: string, n: nat) {
    forall k: nat :: k < n ==> !OuterComma(t, k)
  }

  lemma {:induction false} NotYet(t: string, n: nat)
    requires NoOuterCommaBefore(t, n) && !OuterComma(t, n)
    ensures NoOuterCommaBefore(t, n + 1)
  {
  }

  lemma {:induction false} LastPiece(t: string)
    requires NoOuterCommaBefore(t, |t|)
    ensures IsCut(t, [t])
  {
  }

  lemma {:induction false} FirstPiece(t: string, n: nat, rest: seq<string>)
    requires OuterComma(t, n) && NoOuterCommaBefore(t, n) && IsCut(t[n + 1..], rest)
    ensures IsCut(t, [t[..n]] + rest)
  {
    var piece := t[..n];
    forall k: nat | k < |piece|
      ensures !OuterComma(piece, k)
    {
      DepthOfPrefix(t, n, k);
      assert !OuterComma(t, k) && piece[k] == t[k];
    }
    assert ([piece] + rest)[1..] == rest;
  }

  /** The pieces found from position i on, in the piece that began at start. */
  lemma {:induction false} CutsAreCut(s: string, i: nat, start: nat, done: seq<string>) returns (ps: seq<string>)
    requires start <= i <= |s| && NoOuterCommaBefore(s[start..], i - start)
    ensures Cuts(s, i, start, Depth(s[start..], i - start), done) == done + ps && IsCut(s[start..], ps)
    decreases |s| - i
  {
    var t, n := s[start..], i - start;
    if i == |s| {
      ps := [t];
      LastPiece(t);
    } else {
      assert t[n] == s[i];
      CutsStep(s, i, start, Depth(t, n), done);
      DepthMoves(s, start, i);
      if s[i] == ',' && Depth(t, n) == 0 {
        Positions(s, start, i);
        var rest := CutsAreCut(s, i + 1, i + 1, done + [t[..n]]);
        ps := [t[..n]] + rest;
        Reassociate(done, [t[..n]], rest);
        FirstPiece(t, n, rest);
      } else {
        NotYet(t, n);
        ps := CutsAreCut(s, i + 1, start, done);
      }
    }
  }

  lemma {:induction false} Positions(s: string, start: nat, i: nat)
    requires start <= i < |s|
    ensures s[i + 1..] == s[start..][i - start + 1..] && s[start..i] == s[start..][..i - start] && Depth(s[i + 1..], 0) == 0
  {
  }

  lemma {:induction false} SeveralPieces(s: string, ps: seq<string>)
    requires IsCut(s, ps)
    ensures |ps| == 1 <==> NoOuterComma(s)
  {
    if |ps| > 1 {
      assert OuterComma(s, |ps[0]|);
    }
  }

  lemma {:induction false} FirstCut(s: string, ps: seq<string>, qs: seq<string>)
    requires IsCut(s, ps) && IsCut(s, qs) && |ps| > 1 && |qs| > 1
    ensures |ps[0]| >= |qs[0]|
  {
    if |ps[0]| < |qs[0]| {
      PrefixComma(s, |qs[0]|, |ps[0]|);
    }
  }

  lemma {:induction false} PrefixComma(s: string, n: nat, k: nat)
    requires k < n <= |s| && OuterComma(s, k)
    ensures OuterComma(s[..n], k)
  {
    DepthOfPrefix(s, n, k);
  }

  lemma {:induction false} CutUniquely(s: string, ps: seq<string>, qs: seq<string>)
    requires IsCut(s, ps) && IsCut(s, qs)
    ensures ps == qs
    decreases |ps|
  {
    SeveralPieces(s, ps);
    SeveralPieces(s, qs);
    if |ps| == 1 {
      assert ps == [s] && qs == [s];
    } else {
      FirstCut(s, ps, qs);
      FirstCut(s, qs, ps);
      CutUniquely(s[|ps[0]| + 1..], ps[1..], qs[1..]);
      assert ps == [ps[0]] + ps[1..] && qs == [qs[0]] + qs[1..];
    }
  }

  /** The text is cut at every comma outside brackets and nowhere else. */
  lemma {:induction false} CutsExactlyWhen(s: string, ps: seq<string>)
    ensures ps == Cuts(s, 0, 0, 0, []) <==> IsCut(s, ps)
  {
    assert s[0..] == s && Depth(s, 0) == 0;
    var qs := CutsAreCut(s, 0, 0, []);
    assert [] + qs == qs;
    if IsCut(s, ps) { CutUniquely(s, ps, qs); }
  }

  // ----- Syllables -----

  ghost predicate DenoteEach(ps: seq<string>, ops: seq<Operand>) {
    |ps| == |ops| && forall i :: 0 <= i < |ops| ==> Denotes(Trim(ps[i]), ops[i])
  }

  ghost predicate OperandsText(s: string, ops: seq<Operand>) {
    exists ps :: IsCut(s, ps) && DenoteEach(ps, ops)
  }

  /** A mnemonic up to the first blank, and operands between commas behind it, if there is anything behind it. */
  ghost predicate SyllableDenotes(s: string, syl: AsmSyllable) {
    || (Nowhere(s, " ") && syl == AsmSyllable(s, []))
    || exists rest :: CutAt(s, " ", syl.opcode, rest) && RestDenotes(rest, syl.operands)
  }

  lemma {:induction false} EachExactlyWhen(ps: seq<string>, ops: seq<Operand>)
    ensures ParseEach(ps) == Some(ops) <==> DenoteEach(ps, ops)
  {
    forall i | 0 <= i < |ps| && i < |ops|
      ensures ReadPiece(ps[i]) == Some(ops[i]) <==> Denotes(Trim(ps[i]), ops[i])
    {
      OperandExactlyWhen(Trim(ps[i]), ops[i]);
    }
    var r := ReadEach(ps, ReadPiece);
    if r.Some? && DenoteEach(ps, ops) {
      forall i | 0 <= i < |ops|
        ensures r.value[i] == ops[i]
      {
        assert ReadPiece(ps[i]) == Some(r.value[i]);
      }
      assert r.value == ops;
    }
    if r.None? {
      var i :| 0 <= i < |ps| && ReadPiece(ps[i]).None?;
      assert i < |ops| ==> !Denotes(Trim(ps[i]), ops[i]);
    }
  }

  lemma {:induction false} OperandsExactlyWhen(s: string, ops: seq<Operand>)
    ensures ParseEach(Cuts(s, 0, 0, 0, [])) == Some(ops) <==> OperandsText(s, ops)
  {
    var ps := Cuts(s, 0, 0, 0, []);
    CutsExactlyWhen(s, ps);
    EachExactlyWhen(ps, ops);
    if OperandsText(s, ops) {
      var qs :| IsCut(s, qs) && DenoteEach(qs, ops);
      CutsExactlyWhen(s, qs);
    }
  }

  /** Exactly these texts are read as the syllable. */
  lemma {:induction false} SyllableExactlyWhen(s: string, syl: AsmSyllable)
    ensures ParseSyllable(s) == Some(syl) <==> SyllableDenotes(s, syl)
  {
    match SplitOnce(s, " ")
    case None =>
      NotCut(s, " ");
    case Some((op, rest)) =>
      SplitExactlyWhen(s, " ", op, rest);
      CutUnique(s, " ", op, rest, op, rest);
      OperandsExactlyWhen(Trim(rest), syl.operands);
      SyllableWithRest(s, op, rest, syl);
  }

  /** What follows the mnemonic. */
  ghost predicate RestDenotes(rest: string, ops: seq<Operand>) {
    if Trim(rest) == "" then ops == [] else OperandsText(Trim(rest), ops)
  }

  lemma {:induction false} SyllableWithRest(s: string, op: string, rest: string, syl: AsmSyllable)
    requires CutAt(s, " ", op, rest) && SplitOnce(s, " ") == Some((op, rest)) && !Nowhere(s, " ")
    requires ParseEach(Cuts(Trim(rest), 0, 0, 0, [])) == Some(syl.operands) <==> OperandsText(Trim(rest), syl.operands)
    ensures ParseSyllable(s) == Some(syl) <==> SyllableDenotes(s, syl)
  {
    assert ParseSyllable(s) == Some(syl) <==> syl.opcode == op && RestDenotes(rest, syl.operands);
    if SyllableDenotes(s, syl) {
      var rest' :| CutAt(s, " ", syl.opcode, rest') && RestDenotes(rest', syl.operands);
      CutUnique(s, " ", op, rest, syl.opcode, rest');
    }
  }
}
