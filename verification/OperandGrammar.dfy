/** Which texts are read as which operands and syllables. */
module OperandGrammar {
  import opened Opcodes
  import opened Text
  import opened Numerals
  import opened NumeralGrammar
  import opened Asm
  import opened OperandText

  /** A letter and a number below 256. */
  predicate RegisterText(s: string, c: char, n: nat) {
    s != "" && s[0] == c && n < 256 && SignedNumeral(s[1..], 10, false, n)
  }

  lemma {:induction false} RegisterExactlyWhen(s: string, c: char, n: nat)
    ensures TryParse(s, c) == Some(n) <==> RegisterText(s, c, n)
  {
    if s != "" && s[0] == c {
      assert StripPrefix(s, [c]) == Some(s[1..]);
      IntExactlyWhen(s[1..], 10, 0, 255, n);
    } else if s != "" {
      assert s[..1] == [s[0]] && s[..1] != [c];
    }
  }

  predicate OffsetText(s: string, n: int) {
    I64_MIN <= n <= I64_MAX && if |s| >= 2 && s[..2] == "0x" then SignedNumeral(s[2..], 16, true, n) else SignedNumeral(s, 10, true, n)
  }

  lemma {:induction false} OffsetExactlyWhen(s: string, n: int)
    ensures ParseHexOrDec(s) == Some(n) <==> OffsetText(s, n)
  {
    HexOrDecExactlyWhen(s, n);
  }

  predicate FirstAt(s: string, sep: string, i: nat) {
    OccursAt(s, sep, i) && forall k: nat :: k < i ==> !OccursAt(s, sep, k)
  }

  ghost predicate Nowhere(s: string, sep: string) {
    forall k: nat :: !OccursAt(s, sep, k)
  }

  lemma {:induction false} SplitExactlyWhen(s: string, sep: string, pre: string, post: string)
    requires sep != ""
    ensures SplitOnce(s, sep) == Some((pre, post)) <==> FirstAt(s, sep, |pre|) && s == pre + sep + post
    ensures SplitOnce(s, sep) == None <==> Nowhere(s, sep)
  {
    var r := Find(s, sep, 0);
    if r.Some? {
      var i := r.value;
      assert s == s[..i] + sep + s[i + |sep|..];
      if FirstAt(s, sep, |pre|) && s == pre + sep + post {
        assert i == |pre|;
        assert s[..i] == pre && s[i + |sep|..] == post;
      }
    } else {
      assert forall k: nat :: k > |s| ==> !OccursAt(s, sep, k);
    }
  }

  /** The text is cut at the first separator. */
  predicate CutAt(s: string, sep: string, pre: string, post: string) {
    FirstAt(s, sep, |pre|) && s == pre + sep + post
  }

  ghost predicate Sum(s: string, base: nat, offset: int) {
    exists pre, post :: CutAt(s, " + ", pre, post) && BaseOffset(pre, post, base, offset)
  }

  ghost predicate Difference(s: string, base: nat, offset: int) {
    exists pre, post :: CutAt(s, " - ", pre, post) && BaseOffset(pre, post, base, -offset)
  }

  /** A base register, and an offset added at the first ` + ` or else subtracted at the first ` - `. */
  ghost predicate AddressText(s: string, base: nat, offset: int) {
    || Sum(s, base, offset)
    || (Nowhere(s, " + ") && Difference(s, base, offset))
    || (Nowhere(s, " + ") && Nowhere(s, " - ") && RegisterText(Trim(s), 'r', base) && offset == 0)
  }

  predicate BaseOffset(pre: string, post: string, base: nat, n: int) {
    RegisterText(Trim(pre), 'r', base) && OffsetText(Trim(post), n)
  }

  lemma {:induction false} PartsExactlyWhen(pre: string, post: string, base: nat, n: int)
    ensures TryParse(Trim(pre), 'r') == Some(base) && ParseHexOrDec(Trim(post)) == Some(n) <==> BaseOffset(pre, post, base, n)
  {
    RegisterExactlyWhen(Trim(pre), 'r', base);
    HexOrDecExactlyWhen(Trim(post), n);
  }

  lemma {:induction false} BaseOffsetFrom(pre: string, post: string, sign: int, b: Option<nat>, n: Option<int>)
    requires b == TryParse(Trim(pre), 'r') && n == ParseHexOrDec(Trim(post))
    ensures ParseBaseOffset(pre, post, sign) == if b.Some? && n.Some? then Some(MemAddr(b.value, sign * n.value)) else None
  {
  }

  lemma {:induction false} AddedExactlyWhen(pre: string, post: string, base: nat, offset: int)
    ensures ParseBaseOffset(pre, post, 1) == Some(MemAddr(base, offset)) <==> BaseOffset(pre, post, base, offset)
  {
    BaseOffsetFrom(pre, post, 1, TryParse(Trim(pre), 'r'), ParseHexOrDec(Trim(post)));
    PartsExactlyWhen(pre, post, base, offset);
  }

  lemma {:induction false} SubtractedExactlyWhen(pre: string, post: string, base: nat, offset: int)
    ensures ParseBaseOffset(pre, post, -1) == Some(MemAddr(base, offset)) <==> BaseOffset(pre, post, base, -offset)
  {
    var b, n := TryParse(Trim(pre), 'r'), ParseHexOrDec(Trim(post));
    BaseOffsetFrom(pre, post, -1, b, n);
    PartsExactlyWhen(pre, post, base, -offset);
    Negated(b, n, base, offset);
  }

  lemma {:induction false} Negated(b: Option<nat>, n: Option<int>, base: nat, offset: int)
    ensures (if b.Some? && n.Some? then Some(MemAddr(b.value, -1 * n.value)) else None) == Some(MemAddr(base, offset)) <==>
              b == Some(base) && n == Some(-offset)
  {
  }

  lemma {:induction false} CutUnique(s: string, sep: string, pre: string, post: string, pre': string, post': string)
    requires sep != "" && CutAt(s, sep, pre, post) && CutAt(s, sep, pre', post')
    ensures pre == pre' && post == post' && !Nowhere(s, sep)
  {
    SplitExactlyWhen(s, sep, pre, post);
    SplitExactlyWhen(s, sep, pre', post');
    assert OccursAt(s, sep, |pre|);
  }

  lemma {:induction false} SumExactlyWhen(s: string, pre: string, post: string, base: nat, offset: int)
    requires SplitOnce(s, " + ") == Some((pre, post))
    ensures ParseBaseOffset(pre, post, 1) == Some(MemAddr(base, offset)) <==> Sum(s, base, offset)
    ensures !Nowhere(s, " + ")
  {
    SplitExactlyWhen(s, " + ", pre, post);
    AddedExactlyWhen(pre, post, base, offset);
    assert CutAt(s, " + ", pre, post);
    if Sum(s, base, offset) {
      var pre', post' :| CutAt(s, " + ", pre', post') && BaseOffset(pre', post', base, offset);
      CutUnique(s, " + ", pre, post, pre', post');
    }
    CutUnique(s, " + ", pre, post, pre, post);
  }

  lemma {:induction false} DifferenceExactlyWhen(s: string, pre: string, post: string, base: nat, offset: int)
    requires SplitOnce(s, " - ") == Some((pre, post))
    ensures ParseBaseOffset(pre, post, -1) == Some(MemAddr(base, offset)) <==> Difference(s, base, offset)
    ensures !Nowhere(s, " - ")
  {
    SplitExactlyWhen(s, " - ", pre, post);
    SubtractedExactlyWhen(pre, post, base, offset);
    assert CutAt(s, " - ", pre, post);
    if Difference(s, base, offset) {
      var pre', post' :| CutAt(s, " - ", pre', post') && BaseOffset(pre', post', base, -offset);
      CutUnique(s, " - ", pre, post, pre', post');
    }
    CutUnique(s, " - ", pre, post, pre, post);
  }

  lemma {:induction false} NotCut(s: string, sep: string)
    requires sep != "" && SplitOnce(s, sep) == None
    ensures Nowhere(s, sep) && forall pre, post :: !CutAt(s, sep, pre, post)
  {
    SplitExactlyWhen(s, sep, "", "");
    forall pre, post
      ensures !CutAt(s, sep, pre, post)
    {
      SplitExactlyWhen(s, sep, pre, post);
    }
  }

  lemma {:induction false} AddressExactlyWhen(s: string, base: nat, offset: int)
    ensures ParseAddress(s) == Some(MemAddr(base, offset)) <==> AddressText(s, base, offset)
  {
    match SplitOnce(s, " + ")
    case Some((pre, post)) => SumExactlyWhen(s, pre, post, base, offset);
    case None =>
      NotCut(s, " + ");
      NoSum(s, base, offset);
  }

  lemma {:induction false} NoSum(s: string, base: nat, offset: int)
    requires SplitOnce(s, " + ") == None && Nowhere(s, " + ") && !Sum(s, base, offset)
    ensures ParseAddress(s) == Some(MemAddr(base, offset)) <==> AddressText(s, base, offset)
  {
    match SplitOnce(s, " - ")
    case Some((pre, post)) => DifferenceExactlyWhen(s, pre, post, base, offset);
    case None =>
      NotCut(s, " - ");
      RegisterExactlyWhen(Trim(s), 'r', base);
  }

  predicate Bracketed(s: string, inner: string) {
    s == "[" + inner + "]"
  }

  ghost predicate ReadsAsRegister(s: string) {
    exists n: nat :: RegisterText(s, 'r', n) || RegisterText(s, 'p', n)
  }

  /**
   * The text of an operand: an address in brackets, a register, a predicate, a number, and whatever is none of
   * these, and does not begin like an address or a number, a label.
   */
  ghost predicate Denotes(s: string, o: Operand) {
    match o
    case MemAddr(base, offset) => exists inner :: Bracketed(s, inner) && AddressText(inner, base, offset)
    case RegOp(n) => RegisterText(s, 'r', n)
    case PredOp(n) => RegisterText(s, 'p', n)
    case ImmOp(n) => LooksLikeNumber(s) && I64_MIN <= n <= I64_MAX && SignedNumeral(s, 10, true, n)
    case LabelOp(l) => l == s && !(s != "" && s[0] == '[') && !ReadsAsRegister(s) && !LooksLikeNumber(s)
  }

  lemma {:induction false} BracketedExactlyWhen(s: string, inner: string)
    ensures Bracketed(s, inner) <==> s != "" && s[0] == '[' && StripSuffix(s[1..], "]") == Some(inner)
  {
    if Bracketed(s, inner) {
      assert s[1..] == inner + "]";
    }
  }

  lemma {:induction false} BracketOperand(s: string, o: Operand)
    requires s != "" && s[0] == '['
    ensures ParseOperand(s) == Some(o) <==> Denotes(s, o)
  {
    if o.MemAddr? {
      forall inner
        ensures Bracketed(s, inner) <==> StripSuffix(s[1..], "]") == Some(inner)
      {
        BracketedExactlyWhen(s, inner);
      }
      if StripSuffix(s[1..], "]").Some? {
        AddressExactlyWhen(StripSuffix(s[1..], "]").value, o.base, o.offset);
      }
    } else {
      AddressIsMem(s);
    }
  }

  lemma {:induction false} AddressIsMem(s: string)
    requires s != "" && s[0] == '['
    ensures ParseOperand(s).Some? ==> ParseOperand(s).value.MemAddr?
    ensures forall n: nat :: !RegisterText(s, 'r', n) && !RegisterText(s, 'p', n)
    ensures !LooksLikeNumber(s)
  {
  }

  /** Exactly these texts are read as the operand. */
  lemma {:induction false} OperandExactlyWhen(s: string, o: Operand)
    ensures ParseOperand(s) == Some(o) <==> Denotes(s, o)
  {
    if s != "" && s[0] == '[' {
      BracketOperand(s, o);
    } else {
      PlainOperand(s, o);
    }
  }

  lemma {:induction false} PlainOperand(s: string, o: Operand)
    requires !(s != "" && s[0] == '[')
    ensures ParseOperand(s) == Some(o) <==> Denotes(s, o)
  {
    forall n: nat
      ensures TryParse(s, 'r') == Some(n) <==> RegisterText(s, 'r', n)
      ensures TryParse(s, 'p') == Some(n) <==> RegisterText(s, 'p', n)
    {
      RegisterExactlyWhen(s, 'r', n);
      RegisterExactlyWhen(s, 'p', n);
    }
    if TryParse(s, 'r').Some? { assert RegisterText(s, 'r', TryParse(s, 'r').value); }
    if TryParse(s, 'p').Some? { assert RegisterText(s, 'p', TryParse(s, 'p').value); }
    if o.ImmOp? { IntExactlyWhen(s, 10, I64_MIN, I64_MAX, o.n); }
  }
}
