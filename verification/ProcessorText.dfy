/** The processor header as lines of text, and back. */
module ProcessorText {
  import opened Opcodes
  import opened Text
  import opened LinesText
  import opened Numerals
  import opened Asm
  import opened OperandText
  import opened SyllableText

  // ----- Printing -----

  function UnitLine(u: UnitDecl): string { "unit " + (u.name + " = " + u.kind) }

  function AliasLine(a: SlotAlias): string { "alias " + (a.name + " = " + Show(a.slot, 10)) }

  /** A slot without units shows an empty list. */
  function UnitList(us: seq<string>): string { if us == [] then "" else Joined(us, 0) }

  function SlotUnitsLine(slot: nat, us: seq<string>): string { Show(slot, 10) + " = " + ("{ " + UnitList(us) + " }") }

  function WidthLine(p: Processor): string { "width " + Show(p.width, 10) }

  function MemoryLine(p: Processor): string { "memory { size " + ShowHex(p.memorySize) + " }" }

  function TopologyLine(p: Processor): string { "topology { cpus " + Show(p.cpus, 10) + " }" }

  function Indented(indent: nat, ts: seq<string>): seq<Line> {
    seq(|ts|, i requires 0 <= i < |ts| => Line(indent, ts[i]))
  }

  function UnitTexts(us: seq<UnitDecl>): seq<string> {
    seq(|us|, i requires 0 <= i < |us| => UnitLine(us[i]))
  }

  function AliasTexts(aliases: seq<SlotAlias>): seq<string> {
    seq(|aliases|, i requires 0 <= i < |aliases| => AliasLine(aliases[i]))
  }

  function SlotUnitsTexts(slotUnits: seq<seq<string>>): seq<string> {
    seq(|slotUnits|, i requires 0 <= i < |slotUnits| => SlotUnitsLine(i, slotUnits[i]))
  }

  function HardwareLines(p: Processor): seq<Line> {
    [Line(2, "hardware {")] + Indented(4, UnitTexts(p.units)) + [Line(2, "}")]
  }

  function LayoutLines(p: Processor): seq<Line> {
    [Line(2, "layout slots {")] + Indented(4, AliasTexts(p.slotAliases)) + [Line(0, "")]
    + Indented(4, SlotUnitsTexts(p.slotUnits)) + [Line(2, "}")]
  }

  function MemoryLines(p: Processor): seq<Line> {
    if p.memorySize == DEFAULT_MEMORY_SIZE then [] else [Line(0, ""), Line(2, MemoryLine(p))]
  }

  function HeaderLines(p: Processor): seq<Line> {
    [Line(0, ".processor {"), Line(2, WidthLine(p)), Line(0, "")] + HardwareLines(p) + [Line(0, "")] + LayoutLines(p)
    + [Line(0, "")] + MemoryLines(p) + [Line(2, "cache { }"), Line(2, TopologyLine(p)), Line(0, "}")]
  }

  // ----- Parsing single lines -----

  /** The first position from i on that holds something else than c. */
  function SkipChar(s: string, c: char, i: nat): (r: nat)
    requires i <= |s|
    ensures i <= r <= |s| && (forall k :: i <= k < r ==> s[k] == c) && (r < |s| ==> s[r] != c)
    decreases |s| - i
  {
    if i < |s| && s[i] == c then SkipChar(s, c, i + 1) else i
  }

  function BackChar(s: string, c: char, j: nat): (r: nat)
    requires j <= |s|
    ensures r <= j && (forall k :: r <= k < j ==> s[k] == c) && (r > 0 ==> s[r - 1] != c)
  {
    if j > 0 && s[j - 1] == c then BackChar(s, c, j - 1) else j
  }

  function TrimStartChar(s: string, c: char): string { s[SkipChar(s, c, 0)..] }

  function TrimEndChar(s: string, c: char): string { s[..BackChar(s, c, |s|)] }

  /** Splits at every comma. */
  function SplitCommas(s: string, i: nat, start: nat, done: seq<string>): seq<string>
    requires start <= i <= |s|
    decreases |s| - i
  {
    if i == |s| then done + [s[start..]]
    else if s[i] == ',' then SplitCommas(s, i + 1, i + 1, done + [s[start..i]])
    else SplitCommas(s, i + 1, start, done)
  }

  function ParseUsize(s: string): Option<nat> {
    match ParseInt(s, 10, 0, U64_MAX)
    case Some(n) => if n >= 0 then Some(n) else None
    case None => None
  }

  function ParseU32(s: string): Option<nat> {
    match ParseInt(s, 10, 0, U32_MAX)
    case Some(n) => if n >= 0 then Some(n) else None
    case None => None
  }

  function ParseUnit(trimmed: string): Option<UnitDecl> {
    match StripPrefix(trimmed, "unit ")
    case None => None
    case Some(rest) =>
      match SplitOnce(rest, " = ")
      case None => None
      case Some((name, kind)) => Some(UnitDecl(Trim(name), Trim(kind)))
  }

  function ParseAlias(rest: string): Option<SlotAlias> {
    match SplitOnce(rest, " = ")
    case None => None
    case Some((name, index)) =>
      match ParseUsize(Trim(index))
      case None => None
      case Some(slot) => Some(SlotAlias(Trim(name), slot))
  }

  function ParseUnitList(rest: string): seq<string> {
    var inner := Trim(TrimEndChar(TrimStartChar(Trim(rest), '{'), '}'));
    if inner == "" then [] else TrimAll(SplitCommas(inner, 0, 0, []))
  }

  function ParseSlotUnits(trimmed: string): Option<(nat, seq<string>)> {
    match SplitOnce(trimmed, " = ")
    case None => None
    case Some((index, rest)) =>
      match ParseUsize(Trim(index))
      case None => None
      case Some(slot) => Some((slot, ParseUnitList(rest)))
  }

  /** What stands in the braces after a keyword. */
  function Braced(trimmed: string, keyword: string, field: string): Option<string> {
    match StripPrefix(trimmed, keyword)
    case None => None
    case Some(rest) =>
      match StripPrefix(Trim(rest), "{")
      case None => None
      case Some(open) =>
        match StripPrefix(Trim(TrimEndChar(open, '}')), field)
        case None => None
        case Some(v) => Some(Trim(v))
  }

  function ParseTopology(trimmed: string): Option<nat> {
    match Braced(trimmed, "topology", "cpus ")
    case None => None
    case Some(v) => ParseU32(v)
  }

  /** The size is read as i64 and reinterpreted as u64. */
  function MemorySize(text: Option<string>): Option<nat> {
    match text
    case None => None
    case Some(v) =>
      match ParseHexOrDec(v)
      case None => None
      case Some(n) => Some(n % (U64_MAX + 1))
  }

  function ParseMemory(trimmed: string): Option<nat> {
    MemorySize(Braced(trimmed, "memory", "size "))
  }

  // ----- Their round trips -----

  lemma {:induction false} NoSpaceIsTight(s: string)
    requires NoSpaceWord(s)
    ensures Tight(s) && Trim(s) == s && ' ' !in s
  {
    TrimTight(s);
  }

  lemma {:induction false} NumberIsTight(n: nat)
    ensures NoSpaceWord(Show(n, 10)) && Trim(Show(n, 10)) == Show(n, 10)
  {
    ShownIsWord(n, 10);
    NoSpaceIsTight(Show(n, 10));
  }

  lemma {:induction false} UsizeRoundTrip(n: nat)
    requires n <= U64_MAX
    ensures ParseUsize(Trim(Show(n, 10))) == Some(n)
  {
    NumberIsTight(n);
    ParseShown(n, 10, 0, U64_MAX);
  }

  lemma {:induction false} Equation(name: string, value: string)
    requires NoSpaceWord(name)
    ensures SplitOnce(name + " = " + value, " = ") == Some((name, value))
  {
    NoSpaceIsTight(name);
    SplitAtFirst(name, " = ", value);
  }

  lemma {:induction false} UnitReads(u: UnitDecl)
    requires NoSpaceWord(u.name) && NoSpaceWord(u.kind)
    ensures ParseUnit("unit " + (u.name + " = " + u.kind)) == Some(u)
  {
    StripPrefixOf("unit ", u.name + " = " + u.kind);
    Equation(u.name, u.kind);
    NoSpaceIsTight(u.name);
    NoSpaceIsTight(u.kind);
  }

  lemma {:induction false} AliasReads(a: SlotAlias)
    requires NoSpaceWord(a.name) && a.slot <= U64_MAX
    ensures ParseAlias(a.name + " = " + Show(a.slot, 10)) == Some(a)
  {
    Equation(a.name, Show(a.slot, 10));
    NoSpaceIsTight(a.name);
    UsizeRoundTrip(a.slot);
  }

  /** A unit name that can stand in a slot's list. */
  predicate UnitName(s: string) { Word(s) && '{' !in s && '}' !in s }

  predicate UnitNames(us: seq<string>) {
    forall i :: 0 <= i < |us| ==> UnitName(us[i])
  }

  lemma {:induction false} SplitIsCuts(s: string, i: nat, start: nat, done: seq<string>)
    requires start <= i <= |s| && '[' !in s && ']' !in s
    ensures SplitCommas(s, i, start, done) == Cuts(s, i, start, 0, done)
    decreases |s| - i
  {
    if i < |s| {
      if s[i] == ',' {
        SplitIsCuts(s, i + 1, i + 1, done + [s[start..i]]);
      } else {
        SplitIsCuts(s, i + 1, start, done);
      }
    }
  }

  lemma {:induction false} UnitNamesClosed(us: seq<string>)
    requires UnitNames(us)
    ensures AllClosed(us) && AllTight(us)
  {
    forall i | 0 <= i < |us|
      ensures Closed(us[i]) && Tight(us[i])
    {
      WordIsFlat(us[i]);
    }
  }

  lemma {:induction false} JoinedChars(us: seq<string>, k: nat, c: char)
    requires k < |us| && c !in {',', ' '} && forall i :: 0 <= i < |us| ==> c !in us[i]
    ensures c !in Joined(us, k)
    decreases |us| - k
  {
    if k < |us| - 1 {
      JoinedChars(us, k + 1, c);
    }
  }

  lemma {:induction false} CutTextsTrim(ts: seq<string>, k: nat, first: string)
    requires k < |ts| && AllTight(ts) && AllSpaces(first)
    ensures TrimAll(CutTexts(ts, k, first)) == ts[k..]
    decreases |ts| - k
  {
    TrimIndented(first, ts[k]);
    if k < |ts| - 1 {
      CutTextsTrim(ts, k + 1, " ");
      assert TrimAll(CutTexts(ts, k, first)) == [ts[k]] + TrimAll(CutTexts(ts, k + 1, " "));
    }
  }

  lemma {:induction false} NoBrackets(us: seq<string>)
    requires us != [] && UnitNames(us)
    ensures '[' !in Joined(us, 0) && ']' !in Joined(us, 0) && '{' !in Joined(us, 0) && '}' !in Joined(us, 0)
  {
    forall i, c | 0 <= i < |us| && c in {'[', ']', '{', '}'}
      ensures c !in us[i]
    {
      assert forall k :: 0 <= k < |us[i]| ==> WordChar(us[i][k]);
    }
    JoinedChars(us, 0, '[');
    JoinedChars(us, 0, ']');
    JoinedChars(us, 0, '{');
    JoinedChars(us, 0, '}');
  }

  lemma {:induction false} JoinedReads(us: seq<string>)
    requires us != [] && UnitNames(us)
    ensures TrimAll(SplitCommas(Joined(us, 0), 0, 0, [])) == us
  {
    NoBrackets(us);
    UnitNamesClosed(us);
    SplitIsCuts(Joined(us, 0), 0, 0, []);
    CutsOfJoined(us);
    CutTextsTrim(us, 0, "");
    assert us[0..] == us;
  }

  /** Braces with something between them that has none. */
  lemma {:induction false} BracesOff(inner: string)
    requires '{' !in inner && '}' !in inner
    ensures TrimStartChar("{ " + inner + " }", '{') == " " + inner + " }"
    ensures TrimEndChar(" " + inner + " }", '}') == " " + inner + " "
    ensures Trim("{ " + inner + " }") == "{ " + inner + " }"
  {
    var s, t := "{ " + inner + " }", " " + inner + " }";
    TrimTight(s);
    assert SkipChar(s, '{', 0) == 1;
    assert s[1..] == t;
    assert t[|t| - 2] == ' ' && BackChar(t, '}', |t|) == |t| - 1;
    assert t[..|t| - 1] == " " + inner + " ";
  }

  lemma {:induction false} UnitListReads(us: seq<string>)
    requires UnitNames(us)
    ensures ParseUnitList("{ " + UnitList(us) + " }") == us
  {
    var inner := UnitList(us);
    if us != [] {
      NoBrackets(us);
      UnitNamesClosed(us);
      JoinedIsTight(us, 0);
      TrimPadded(" ", inner, " ");
      JoinedReads(us);
    } else {
      TrimBlank(" " + inner + " ");
    }
    BracesOff(inner);
  }

  lemma {:induction false} SlotUnitsRead(slot: nat, us: seq<string>)
    requires slot <= U64_MAX && UnitNames(us)
    ensures ParseSlotUnits(Show(slot, 10) + " = " + ("{ " + UnitList(us) + " }")) == Some((slot, us))
  {
    NumberIsTight(slot);
    Equation(Show(slot, 10), "{ " + UnitList(us) + " }");
    UsizeRoundTrip(slot);
    UnitListReads(us);
  }

  lemma {:induction false} EndBrace(v: string)
    requires '}' !in v
    ensures TrimEndChar(" " + v + " }", '}') == " " + v + " "
  {
    var t := " " + v + " }";
    assert t[|t| - 2] == ' ' && BackChar(t, '}', |t|) == |t| - 1;
    assert t[..|t| - 1] == " " + v + " ";
  }

  lemma {:induction false} BracedReads(keyword: string, field: string, v: string)
    requires NoSpaceWord(v) && field != "" && !IsSpace(field[0]) && '}' !in field + v
    ensures Braced(keyword + " { " + field + v + " }", keyword, field) == Some(v)
  {
    var rest := "{ " + (field + v) + " }";
    assert keyword + " { " + field + v + " }" == keyword + (" " + rest);
    StripPrefixOf(keyword, " " + rest);
    NoSpaceIsTight(v);
    TrimIndented(" ", rest);
    assert rest == "{" + (" " + (field + v) + " }");
    StripPrefixOf("{", " " + (field + v) + " }");
    EndBrace(field + v);
    TrimPadded(" ", field + v, " ");
    StripPrefixOf(field, v);
  }
}
