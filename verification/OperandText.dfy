/** Operands and syllables as text, and back. */
module OperandText {
  import opened Opcodes
  import opened Text
  import opened Numerals
  import opened Asm

  // ----- Printing -----

  function ShowOperand(o: Operand): string {
    match o
    case RegOp(n) => "r" + Show(n, 10)
    case PredOp(n) => "p" + Show(n, 10)
    case ImmOp(n) => ShowInt(n)
    case MemAddr(base, offset) => "[" + ShowAddress(base, offset) + "]"
    case LabelOp(s) => s
  }

  function ShowAddress(base: nat, offset: int): string {
    if offset == 0 then "r" + Show(base, 10)
    else if offset > 0 then "r" + Show(base, 10) + " + " + ShowHex(offset)
    else "r" + Show(base, 10) + " - " + ShowHex(-offset)
  }

  // ----- Parsing -----

  function TryParse(s: string, c: char): Option<nat> {
    match StripPrefix(s, [c])
    case None => None
    case Some(rest) =>
      match ParseInt(rest, 10, 0, 255)
      case Some(n) => if n >= 0 then Some(n) else None
      case None => None
  }

  function ParseBaseOffset(base: string, offset: string, sign: int): Option<Operand> {
    match TryParse(Trim(base), 'r')
    case None => None
    case Some(b) =>
      match ParseHexOrDec(Trim(offset))
      case Some(n) => Some(MemAddr(b, sign * n))
      case None => None
  }

  function ParseAddress(inner: string): Option<Operand> {
    match SplitOnce(inner, " + ")
    case Some((base, offset)) => ParseBaseOffset(base, offset, 1)
    case None =>
      match SplitOnce(inner, " - ")
      case Some((base, offset)) => ParseBaseOffset(base, offset, -1)
      case None =>
        match TryParse(Trim(inner), 'r')
        case Some(b) => Some(MemAddr(b, 0))
        case None => None
  }

  predicate LooksLikeNumber(s: string) {
    s != "" && (s[0] == '-' || '0' <= s[0] <= '9')
  }

  function ParseOperand(s: string): Option<Operand> {
    if s != "" && s[0] == '[' then
      match StripSuffix(s[1..], "]")
      case Some(inner) => ParseAddress(inner)
      case None => None
    else if TryParse(s, 'r').Some? then Some(RegOp(TryParse(s, 'r').value))
    else if TryParse(s, 'p').Some? then Some(PredOp(TryParse(s, 'p').value))
    else if LooksLikeNumber(s) then
      match ParseInt(s, 10, I64_MIN, I64_MAX)
      case Some(n) => Some(ImmOp(n))
      case None => None
    else Some(LabelOp(s))
  }

  // ----- What can be printed -----

  predicate WordChar(c: char) { !IsSpace(c) && c !in {',', '[', ']'} }

  predicate Word(s: string) {
    s != "" && forall i :: 0 <= i < |s| ==> WordChar(s[i])
  }

  /** A label that does not read as a register, a predicate or a number. */
  predicate PlainLabel(s: string) {
    Word(s) && TryParse(s, 'r').None? && TryParse(s, 'p').None? && !LooksLikeNumber(s)
  }

  predicate Printable(o: Operand) {
    match o
    case RegOp(n) => n < 256
    case PredOp(n) => n < 256
    case ImmOp(n) => I64_MIN <= n <= I64_MAX
    case MemAddr(base, offset) => base < 256 && I64_MIN < offset <= I64_MAX
    case LabelOp(s) => PlainLabel(s)
  }

  // ----- Registers, numbers, addresses -----

  lemma {:induction false} ShownIsWord(n: nat, radix: nat)
    requires IsRadix(radix)
    ensures Word(Show(n, radix)) && NoSpaces(Show(n, radix))
  {
    ShowChars(n, radix);
    var s := Show(n, radix);
    forall i | 0 <= i < |s|
      ensures WordChar(s[i])
    {
      assert IsDigitChar(s[i]);
    }
  }

  lemma {:induction false} TryParseShown(n: nat, c: char)
    ensures TryParse([c] + Show(n, 10), c) == if n < 256 then Some(n) else None
  {
    StripPrefixOf([c], Show(n, 10));
    ParseShown(n, 10, 0, 255);
  }

  lemma {:induction false} TryParseOther(s: string, c: char)
    requires s != "" && s[0] != c
    ensures TryParse(s, c) == None
  {
    assert |s| >= 1 && s[..1][0] == s[0];
  }

  lemma {:induction false} ShownIntStarts(n: int)
    ensures LooksLikeNumber(ShowInt(n))
  {
    if n >= 0 {
      ShowChars(n, 10);
    }
  }

  lemma {:induction false} TightWord(s: string)
    requires Word(s)
    ensures Tight(s) && Trim(s) == s && ' ' !in s
  {
    TrimTight(s);
  }

  lemma {:induction false} RegText(base: nat)
    ensures Word("r" + Show(base, 10))
  {
    ShownIsWord(base, 10);
    var s, t := "r" + Show(base, 10), Show(base, 10);
    forall i | 0 <= i < |s|
      ensures WordChar(s[i])
    {
      assert i > 0 ==> s[i] == t[i - 1];
    }
  }

  lemma {:induction false} HexText(n: nat)
    ensures Word(ShowHex(n)) && '+' !in ShowHex(n)
  {
    ShownIsWord(n, 16);
    ShowChars(n, 16);
    var s, t := ShowHex(n), Show(n, 16);
    forall i | 0 <= i < |s|
      ensures WordChar(s[i]) && s[i] != '+'
    {
      assert i >= 2 ==> s[i] == t[i - 2] && IsDigitChar(t[i - 2]);
    }
  }

  lemma {:induction false} BaseOffsetReads(base: nat, n: nat, sign: int)
    ensures ParseBaseOffset("r" + Show(base, 10), ShowHex(n), sign) == if base < 256 && n <= I64_MAX then Some(MemAddr(base, sign * n)) else None
  {
    RegText(base);
    TightWord("r" + Show(base, 10));
    HexText(n);
    TightWord(ShowHex(n));
    TryParseShown(base, 'r');
    ParseShownHex(n);
  }

  lemma {:induction false} NoPlus(base: nat)
    ensures '+' !in "r" + Show(base, 10) && '-' !in "r" + Show(base, 10)
  {
    ShowChars(base, 10);
    var s, t := "r" + Show(base, 10), Show(base, 10);
    forall i | 0 <= i < |s|
      ensures s[i] != '+' && s[i] != '-'
    {
      assert i > 0 ==> s[i] == t[i - 1] && IsDigitChar(t[i - 1]);
    }
  }

  lemma {:induction false} PositiveAddress(r: string, h: string)
    requires Word(r)
    ensures SplitOnce(r + " + " + h, " + ") == Some((r, h))
  {
    TightWord(r);
    SplitAtFirst(r, " + ", h);
  }

  lemma {:induction false} NegativeAddress(r: string, h: string)
    requires Word(r) && '+' !in r && '+' !in h
    ensures SplitOnce(r + " - " + h, " + ") == None && SplitOnce(r + " - " + h, " - ") == Some((r, h))
  {
    TightWord(r);
    SplitNowhere(r + " - " + h, " + ", 1);
    SplitAtFirst(r, " - ", h);
  }

  lemma {:induction false} PlainAddress(r: string)
    requires Word(r)
    ensures SplitOnce(r, " + ") == None && SplitOnce(r, " - ") == None
  {
    TightWord(r);
    SplitNowhere(r, " + ", 0);
    SplitNowhere(r, " - ", 0);
  }

  function Readable(base: nat, offset: int): Option<Operand> {
    if base < 256 && I64_MIN < offset <= I64_MAX then Some(MemAddr(base, offset)) else None
  }

  lemma {:induction false} PositiveReads(base: nat, offset: nat)
    requires offset > 0
    ensures ParseAddress(ShowAddress(base, offset)) == Readable(base, offset)
  {
    RegText(base);
    PositiveAddress("r" + Show(base, 10), ShowHex(offset));
    BaseOffsetReads(base, offset, 1);
  }

  lemma {:induction false} NegativeReads(base: nat, offset: int)
    requires offset < 0
    ensures ParseAddress(ShowAddress(base, offset)) == Readable(base, offset)
  {
    RegText(base);
    NoPlus(base);
    HexText(-offset);
    NegativeAddress("r" + Show(base, 10), ShowHex(-offset));
    BaseOffsetReads(base, -offset, -1);
  }

  lemma {:induction false} AddressReads(base: nat, offset: int)
    ensures ParseAddress(ShowAddress(base, offset)) == Readable(base, offset)
  {
    if offset > 0 {
      PositiveReads(base, offset);
    } else if offset < 0 {
      NegativeReads(base, offset);
    } else {
      var r := "r" + Show(base, 10);
      RegText(base);
      PlainAddress(r);
      TightWord(r);
      TryParseShown(base, 'r');
    }
  }

  lemma {:induction false} BracketsOff(inner: string)
    ensures var s := "[" + inner + "]"; s[0] == '[' && StripSuffix(s[1..], "]") == Some(inner)
  {
    var s := "[" + inner + "]";
    assert s[1..] == inner + "]";
    StripSuffixOf(inner, "]");
  }

  lemma {:induction false} ImmediateReads(n: int)
    ensures ParseOperand(ShowInt(n)) == if I64_MIN <= n <= I64_MAX then Some(ImmOp(n)) else None
  {
    ShownIntStarts(n);
    TryParseOther(ShowInt(n), 'r');
    TryParseOther(ShowInt(n), 'p');
    ParseShownInt(n, I64_MIN, I64_MAX);
  }

  /** What comes back from the text: registers and numbers in range, no smallest offset, and labels that read as nothing else. */
  predicate ReadsBack(o: Operand) {
    match o
    case RegOp(n) => n < 256
    case PredOp(n) => n < 256
    case ImmOp(n) => I64_MIN <= n <= I64_MAX
    case MemAddr(base, offset) => base < 256 && I64_MIN < offset <= I64_MAX
    case LabelOp(s) => !(s != "" && s[0] == '[') && TryParse(s, 'r').None? && TryParse(s, 'p').None? && !LooksLikeNumber(s)
  }

  /** Exactly these operands are read back as what was printed. */
  lemma {:induction false} OperandReadsBackExactlyWhen(o: Operand)
    ensures ParseOperand(ShowOperand(o)) == Some(o) <==> ReadsBack(o)
  {
    match o
    case RegOp(n) => TryParseShown(n, 'r');
    case PredOp(n) =>
      TryParseShown(n, 'p');
      TryParseOther("p" + Show(n, 10), 'r');
    case ImmOp(n) => ImmediateReads(n);
    case MemAddr(base, offset) =>
      BracketsOff(ShowAddress(base, offset));
      AddressReads(base, offset);
    case LabelOp(s) =>
  }

  /** Every printable operand is read back. */
  lemma {:induction false} OperandRoundTrip(o: Operand)
    requires Printable(o)
    ensures ParseOperand(ShowOperand(o)) == Some(o)
  {
    OperandReadsBackExactlyWhen(o);
  }

  /** The smallest offset is printed but not read back: its absolute value is too large. */
  lemma {:induction false} SmallestOffsetIsRefused(base: nat)
    ensures ParseOperand(ShowOperand(MemAddr(base, I64_MIN))) == None
  {
    BracketsOff(ShowAddress(base, I64_MIN));
    AddressReads(base, I64_MIN);
  }
}
