/** The whole processor header: printed, then read back. */
module ProcessorRoundTrip {
  import opened Opcodes
  import opened Text
  import opened Numerals
  import opened LinesText
  import opened Asm
  import opened OperandText
  import opened SyllableText
  import opened BundleText
  import opened ProcessorText
  import opened HeaderText
  import opened HeaderRoundTrip

  // ----- Entries -----

  lemma {:induction false} ClassifyWidth(rest: string)
    ensures Classify("width " + rest) == WidthOf(rest)
  {
    StripPrefixOf("width ", rest);
    assert ("width " + rest)[0] == 'w';
  }

  lemma {:induction false} ClassifyTopology(rest: string)
    ensures Classify("topology {" + rest) == TopologyOf("topology {" + rest)
  {
    var t := "topology {" + rest;
    StripPrefixOf("topology {", rest);
    NoPrefix(t, "width ");
    NoPrefix(t, "cache {");
    assert t[0] == 't';
  }

  lemma {:induction false} ClassifyMemory(rest: string)
    ensures Classify("memory {" + rest) == MemoryOf("memory {" + rest)
  {
    var t := "memory {" + rest;
    StripPrefixOf("memory {", rest);
    NoPrefix(t, "width ");
    NoPrefix(t, "cache {");
    NoPrefix(t, "topology {");
    assert t[0] == 'm';
  }

  lemma {:induction false} ClassifyCache()
    ensures Classify("cache { }") == CacheLine
  {
    StripPrefixOf("cache {", " }");
    assert "cache { }" == "cache {" + " }";
    NoPrefix("cache { }", "width ");
    assert "cache { }"[0] == 'c';
  }

  lemma {:induction false} ClassifyHardware()
    ensures Classify("hardware {") == HardwareOpen
  {
    NoPrefix("hardware {", "width ");
    assert "hardware {"[0] == 'h';
  }

  lemma {:induction false} ClassifyLayout()
    ensures Classify("layout slots {") == LayoutOpen
  {
    NoPrefix("layout slots {", "width ");
    assert "layout slots {"[0] == 'l' && |"layout slots {"| != |"hardware {"|;
  }

  lemma {:induction false} U32Reads(n: nat)
    requires n <= U32_MAX
    ensures ParseU32(Show(n, 10)) == Some(n)
  {
    ParseShown(n, 10, 0, U32_MAX);
  }

  lemma {:induction false} WidthEntry(ts: seq<string>, at: nat, q: Processor, width: nat)
    requires at < |ts| && ts[at] == "width " + Show(width, 10) && width <= U32_MAX
    ensures ParseEntry(ts, at, q) == ParseHeader(ts, at + 1, q.(width := width))
  {
    ClassifyWidth(Show(width, 10));
    NumberIsTight(width);
    U32Reads(width);
  }

  lemma {:induction false} TopologyGoesOn(ts: seq<string>, at: nat, q: Processor, text: string, cpus: nat)
    requires at < |ts| && Classify(ts[at]) == TopologyOf(text) && ParseTopology(text) == Some(cpus)
    ensures ParseEntry(ts, at, q) == ParseHeader(ts, at + 1, q.(cpus := cpus))
  {
  }

  lemma {:induction false} TopologyLineReads(cpus: nat)
    requires cpus <= U32_MAX
    ensures var t := "topology { cpus " + Show(cpus, 10) + " }"; Classify(t) == TopologyOf(t) && ParseTopology(t) == Some(cpus)
  {
    var v := Show(cpus, 10);
    assert "topology { cpus " + v + " }" == "topology {" + (" cpus " + v + " }");
    ClassifyTopology(" cpus " + v + " }");
    TopologyReads(v, cpus);
  }

  lemma {:induction false} TopologyEntry(ts: seq<string>, at: nat, q: Processor, p: Processor)
    requires at < |ts| && ts[at] == TopologyLine(p) && p.cpus <= U32_MAX
    ensures ParseEntry(ts, at, q) == ParseHeader(ts, at + 1, q.(cpus := p.cpus))
  {
    TopologyLineReads(p.cpus);
    TopologyGoesOn(ts, at, q, TopologyLine(p), p.cpus);
  }

  lemma {:induction false} NumberChars(n: nat, radix: nat, c: char)
    requires IsRadix(radix) && !IsDigitChar(c)
    ensures c !in Show(n, radix)
  {
    ShowChars(n, radix);
  }

  lemma {:induction false} TopologyReads(v: string, n: nat)
    requires v == Show(n, 10) && n <= U32_MAX
    ensures ParseTopology("topology { cpus " + v + " }") == Some(n)
  {
    NumberIsTight(n);
    NumberChars(n, 10, '}');
    assert "topology { cpus " + v + " }" == "topology" + " { " + "cpus " + v + " }";
    BracedReads("topology", "cpus ", v);
    U32Reads(n);
  }

  lemma {:induction false} MemoryBraced(v: string)
    requires NoSpaceWord(v) && '}' !in v
    ensures Braced("memory { size " + v + " }", "memory", "size ") == Some(v)
  {
    assert "memory { size " + v + " }" == "memory" + " { " + "size " + v + " }";
    BracedReads("memory", "size ", v);
  }

  lemma {:induction false} MemoryValue(v: string, n: nat)
    requires ParseHexOrDec(v) == Some(n) && n <= U64_MAX
    ensures MemorySize(Some(v)) == Some(n)
  {
  }

  lemma {:induction false} MemoryReads(n: nat)
    requires n <= I64_MAX
    ensures ParseMemory("memory { size " + ShowHex(n) + " }") == Some(n)
  {
    HexWord(n);
    ParseShownHex(n);
    MemoryBraced(ShowHex(n));
    MemoryValue(ShowHex(n), n);
  }

  lemma {:induction false} HexWord(n: nat)
    ensures NoSpaceWord(ShowHex(n)) && '}' !in ShowHex(n)
  {
    var v := ShowHex(n);
    HexText(n);
    NumberChars(n, 16, '}');
    assert forall i :: 0 <= i < |v| ==> WordChar(v[i]);
  }

  lemma {:induction false} MemoryGoesOn(ts: seq<string>, at: nat, q: Processor, text: string, size: nat)
    requires at < |ts| && Classify(ts[at]) == MemoryOf(text) && ParseMemory(text) == Some(size)
    ensures ParseEntry(ts, at, q) == ParseHeader(ts, at + 1, q.(memorySize := size))
  {
  }

  lemma {:induction false} MemoryLineReads(size: nat)
    requires size <= I64_MAX
    ensures var t := "memory { size " + ShowHex(size) + " }"; Classify(t) == MemoryOf(t) && ParseMemory(t) == Some(size)
  {
    var v := ShowHex(size);
    assert "memory { size " + v + " }" == "memory {" + (" size " + v + " }");
    ClassifyMemory(" size " + v + " }");
    MemoryReads(size);
  }

  lemma {:induction false} MemoryEntry(ts: seq<string>, at: nat, q: Processor, p: Processor)
    requires at < |ts| && ts[at] == MemoryLine(p) && p.memorySize <= I64_MAX
    ensures ParseEntry(ts, at, q) == ParseHeader(ts, at + 1, q.(memorySize := p.memorySize))
  {
    MemoryLineReads(p.memorySize);
    MemoryGoesOn(ts, at, q, MemoryLine(p), p.memorySize);
  }

  lemma {:induction false} HardwareParts(ts: seq<string>, at: nat, us: seq<string>)
    requires LinesAt(ts, at, ["hardware {"] + us + ["}"])
    ensures at + |us| + 2 <= |ts| && ts[at] == "hardware {" && LinesAt(ts, at + 1, us) && ts[at + 1 + |us|] == "}"
  {
    var h := ["hardware {"];
    LinesApart(ts, at, h + us, ["}"]);
    LinesApart(ts, at, h, us);
    assert ts[at + 0] == h[0] && ts[at + |h + us| + 0] == ["}"][0];
  }

  lemma {:induction false} HardwareEntry(ts: seq<string>, at: nat, q: Processor, us: seq<UnitDecl>)
    requires GoodUnits(us) && LinesAt(ts, at, ["hardware {"] + UnitTexts(us) + ["}"])
    ensures at + |us| + 2 <= |ts| && ts[at] == "hardware {"
    ensures ParseEntry(ts, at, q) == ParseHeader(ts, at + |us| + 2, q.(units := us))
  {
    HardwareParts(ts, at, UnitTexts(us));
    ClassifyHardware();
    HardwareReads(ts, at + 1, us);
    HardwareGoesOn(ts, at, q, us, at + |us| + 2);
  }

  lemma {:induction false} HardwareGoesOn(ts: seq<string>, at: nat, q: Processor, us: seq<UnitDecl>, next: nat)
    requires at < |ts| && Classify(ts[at]) == HardwareOpen && ParseHardware(ts, at + 1) == Parsed(us, next)
    ensures next <= |ts| && ParseEntry(ts, at, q) == ParseHeader(ts, next, q.(units := us))
  {
  }

  lemma {:induction false} LayoutGoesOn(ts: seq<string>, at: nat, q: Processor, l: Layout, sus: seq<seq<string>>, next: nat)
    requires at < |ts| && Classify(ts[at]) == LayoutOpen && ParseLayout(ts, at + 1) == Parsed(l, next) && SlotUnitsOf(l.indexed) == sus
    ensures next <= |ts| && ParseEntry(ts, at, q) == ParseHeader(ts, next, q.(slotAliases := l.aliases, slotUnits := sus))
  {
  }

  lemma {:induction false} LayoutParts(ts: seq<string>, at: nat, a: seq<string>, s: seq<string>)
    requires LinesAt(ts, at, ["layout slots {"] + a + [""] + s + ["}"])
    ensures at + |a| + |s| + 3 <= |ts| && ts[at] == "layout slots {" && ts[at + 1 + |a|] == "" && ts[at + |a| + |s| + 2] == "}"
    ensures LinesAt(ts, at + 1, a) && LinesAt(ts, at + |a| + 2, s)
  {
    var h := ["layout slots {"];
    LinesApart(ts, at, h + a + [""] + s, ["}"]);
    LinesApart(ts, at, h + a + [""], s);
    LinesApart(ts, at, h + a, [""]);
    LinesApart(ts, at, h, a);
    assert ts[at + 0] == h[0] && ts[at + |h + a| + 0] == [""][0] && ts[at + |h + a + [""] + s| + 0] == ["}"][0];
  }

  lemma {:induction false} LayoutBlockReads(ts: seq<string>, pos: nat, ls: seq<string>, mid: nat, end: nat, aliases: seq<SlotAlias>, sus: seq<seq<string>>)
    requires GoodAliases(aliases) && AliasSlotsFit(aliases) && GoodSlotUnits(sus) && ls == AliasTexts(aliases)
    requires LinesAt(ts, pos, ls) && pos + |ls| < |ts| && ts[pos + |ls|] == "" && mid == pos + |ls| + 1
    requires LinesAt(ts, mid, SlotUnitsTexts(sus)) && mid + |sus| < |ts| && ts[mid + |sus|] == "}" && end == mid + |sus| + 1
    ensures ParseLayout(ts, pos) == Parsed(Layout(aliases, Indexed(sus, |sus|)), end)
  {
    SlotUnitsReadAll(ts, mid, aliases, sus, end);
    AliasesRead(ts, pos, aliases, ls, mid, Parsed(Layout(aliases, Indexed(sus, |sus|)), end));
  }

  lemma {:induction false} LayoutInPlace(ts: seq<string>, at: nat, aliases: seq<SlotAlias>, sus: seq<seq<string>>, next: nat)
    requires GoodAliases(aliases) && AliasSlotsFit(aliases) && GoodSlotUnits(sus) && next == at + |aliases| + |sus| + 3
    requires LinesAt(ts, at, ["layout slots {"] + AliasTexts(aliases) + [""] + SlotUnitsTexts(sus) + ["}"])
    ensures next <= |ts| && ts[at] == "layout slots {" && ParseLayout(ts, at + 1) == Parsed(Layout(aliases, Indexed(sus, |sus|)), next)
  {
    LayoutParts(ts, at, AliasTexts(aliases), SlotUnitsTexts(sus));
    LayoutBlockReads(ts, at + 1, AliasTexts(aliases), at + |aliases| + 2, next, aliases, sus);
  }

  lemma {:induction false} LayoutEntry(ts: seq<string>, at: nat, q: Processor, aliases: seq<SlotAlias>, sus: seq<seq<string>>, next: nat)
    requires GoodAliases(aliases) && AliasSlotsFit(aliases) && GoodSlotUnits(sus) && next == at + |aliases| + |sus| + 3
    requires LinesAt(ts, at, ["layout slots {"] + AliasTexts(aliases) + [""] + SlotUnitsTexts(sus) + ["}"])
    ensures next <= |ts| && ts[at] == "layout slots {"
    ensures ParseEntry(ts, at, q) == ParseHeader(ts, next, q.(slotAliases := aliases, slotUnits := sus))
  {
    LayoutInPlace(ts, at, aliases, sus, next);
    ClassifyLayout();
    SlotUnitsBack(sus);
    LayoutGoesOn(ts, at, q, Layout(aliases, Indexed(sus, |sus|)), sus, next);
  }

  // ----- The loop -----

  lemma {:induction false} HeaderBlank(ts: seq<string>, pos: nat, q: Processor)
    requires pos < |ts| && ts[pos] == ""
    ensures ParseHeader(ts, pos, q) == ParseHeader(ts, pos + 1, q)
  {
  }

  lemma {:induction false} HeaderNext(ts: seq<string>, pos: nat, q: Processor, r: ParseResult<Processor>)
    requires pos < |ts| && ts[pos] != "" && ParseEntry(ts, pos, q) == r
    ensures ParseHeader(ts, pos, q) == r
  {
  }

  lemma {:induction false} HeaderClose(ts: seq<string>, pos: nat, q: Processor)
    requires pos < |ts| && ts[pos] == "}"
    ensures ParseHeader(ts, pos, q) == Parsed(q, pos + 1)
  {
  }

  // ----- Section by section -----

  function HeadTexts(p: Processor): seq<string> { [".processor {", WidthLine(p), ""] }

  function HardwareTexts(p: Processor): seq<string> { ["hardware {"] + UnitTexts(p.units) + ["}"] }

  function LayoutTexts(p: Processor): seq<string> {
    ["layout slots {"] + AliasTexts(p.slotAliases) + [""] + SlotUnitsTexts(p.slotUnits) + ["}"]
  }

  function MemoryTexts(p: Processor): seq<string> {
    if p.memorySize == DEFAULT_MEMORY_SIZE then [] else ["", MemoryLine(p)]
  }

  function TailTexts(p: Processor): seq<string> { ["cache { }", TopologyLine(p), "}"] }

  function HeaderTexts(p: Processor): seq<string> {
    HeadTexts(p) + HardwareTexts(p) + [""] + LayoutTexts(p) + [""] + MemoryTexts(p) + TailTexts(p)
  }

  lemma {:induction false} TextsTogether(xs: seq<Line>, ys: seq<Line>)
    ensures TextsOf(xs + ys) == TextsOf(xs) + TextsOf(ys)
  {
  }

  lemma {:induction false} TextsOfIndented(n: nat, ts: seq<string>)
    ensures TextsOf(Indented(n, ts)) == ts
  {
  }

  lemma {:induction false} HardwareLineTexts(p: Processor)
    ensures TextsOf(HardwareLines(p)) == HardwareTexts(p)
  {
    var h, u := [Line(2, "hardware {")], Indented(4, UnitTexts(p.units));
    TextsTogether(h + u, [Line(2, "}")]);
    TextsTogether(h, u);
    TextsOfIndented(4, UnitTexts(p.units));
  }

  lemma {:induction false} LayoutLineTexts(p: Processor)
    ensures TextsOf(LayoutLines(p)) == LayoutTexts(p)
  {
    var h, a, s := [Line(2, "layout slots {")], Indented(4, AliasTexts(p.slotAliases)), Indented(4, SlotUnitsTexts(p.slotUnits));
    TextsTogether(h + a + [Line(0, "")] + s, [Line(2, "}")]);
    TextsTogether(h + a + [Line(0, "")], s);
    TextsTogether(h + a, [Line(0, "")]);
    TextsTogether(h, a);
    TextsOfIndented(4, AliasTexts(p.slotAliases));
    TextsOfIndented(4, SlotUnitsTexts(p.slotUnits));
  }

  lemma {:induction false} SevenTexts(h: seq<Line>, hw: seq<Line>, e: seq<Line>, l: seq<Line>, m: seq<Line>, t: seq<Line>)
    ensures TextsOf(h + hw + e + l + e + m + t) ==
              TextsOf(h) + TextsOf(hw) + TextsOf(e) + TextsOf(l) + TextsOf(e) + TextsOf(m) + TextsOf(t)
  {
    TextsTogether(h + hw + e + l + e + m, t);
    TextsTogether(h + hw + e + l + e, m);
    TextsTogether(h + hw + e + l, e);
    TextsTogether(h + hw + e, l);
    TextsTogether(h + hw, e);
    TextsTogether(h, hw);
  }

  lemma {:induction false} SmallTexts(p: Processor)
    ensures TextsOf([Line(0, ".processor {"), Line(2, WidthLine(p)), Line(0, "")]) == HeadTexts(p)
    ensures TextsOf([Line(2, "cache { }"), Line(2, TopologyLine(p)), Line(0, "}")]) == TailTexts(p)
    ensures TextsOf(MemoryLines(p)) == MemoryTexts(p) && TextsOf([Line(0, "")]) == [""]
  {
  }

  lemma {:induction false} HeaderLineTexts(p: Processor)
    ensures TextsOf(HeaderLines(p)) == HeaderTexts(p)
  {
    var h, e := [Line(0, ".processor {"), Line(2, WidthLine(p)), Line(0, "")], [Line(0, "")];
    SevenTexts(h, HardwareLines(p), e, LayoutLines(p), MemoryLines(p), [Line(2, "cache { }"), Line(2, TopologyLine(p)), Line(0, "}")]);
    HardwareLineTexts(p);
    LayoutLineTexts(p);
    SmallTexts(p);
  }

  lemma {:induction false} HeadReads(ts: seq<string>, pos: nat, p: Processor, r: ParseResult<Processor>)
    requires p.width <= U32_MAX && LinesAt(ts, pos, HeadTexts(p)) && ParseHeader(ts, pos + 3, FRESH_PROCESSOR.(width := p.width)) == r
    ensures ts[pos] == ".processor {" && ParseHeader(ts, pos + 1, FRESH_PROCESSOR) == r
  {
    assert ts[pos + 0] == HeadTexts(p)[0] && ts[pos + 1] == HeadTexts(p)[1] && ts[pos + 2] == HeadTexts(p)[2];
    HeaderBlank(ts, pos + 2, FRESH_PROCESSOR.(width := p.width));
    WidthEntry(ts, pos + 1, FRESH_PROCESSOR, p.width);
    assert |ts[pos + 1]| > 1;
    HeaderNext(ts, pos + 1, FRESH_PROCESSOR, r);
  }

  lemma {:induction false} ReadsFromHardware(ts: seq<string>, pos: nat, q: Processor, p: Processor, q': Processor, r: ParseResult<Processor>, next: nat)
    requires PrintableProcessor(p) && q' == q.(units := p.units)
    requires LinesAt(ts, pos, HardwareTexts(p)) && next == pos + |HardwareTexts(p)| <= |ts| && ParseHeader(ts, next, q') == r
    ensures ParseHeader(ts, pos, q) == r
  {
    HardwareEntry(ts, pos, q, p.units);
    HeaderNext(ts, pos, q, r);
  }

  lemma {:induction false} ReadsFromLayout(ts: seq<string>, pos: nat, q: Processor, p: Processor, q': Processor, r: ParseResult<Processor>, next: nat)
    requires PrintableProcessor(p) && q' == q.(slotAliases := p.slotAliases, slotUnits := p.slotUnits)
    requires LinesAt(ts, pos, LayoutTexts(p)) && next == pos + |LayoutTexts(p)| <= |ts| && ParseHeader(ts, next, q') == r
    ensures ParseHeader(ts, pos, q) == r
  {
    LayoutEntry(ts, pos, q, p.slotAliases, p.slotUnits, next);
    HeaderNext(ts, pos, q, r);
  }

  lemma {:induction false} ReadsFromBlank(ts: seq<string>, pos: nat, q: Processor, r: ParseResult<Processor>)
    requires LinesAt(ts, pos, [""]) && ParseHeader(ts, pos + 1, q) == r
    ensures ParseHeader(ts, pos, q) == r
  {
    BlankAt(ts, pos, q);
  }

  lemma {:induction false} ReadsMemoryLine(ts: seq<string>, pos: nat, q: Processor, p: Processor, r: ParseResult<Processor>)
    requires pos < |ts| && ts[pos] == MemoryLine(p) && p.memorySize <= I64_MAX && ParseHeader(ts, pos + 1, q.(memorySize := p.memorySize)) == r
    ensures ParseHeader(ts, pos, q) == r
  {
    MemoryEntry(ts, pos, q, p);
    assert |ts[pos]| > 1;
    HeaderNext(ts, pos, q, r);
  }

  /** The memory line, if there is one. */
  lemma {:induction false} ReadsFromMemory(ts: seq<string>, pos: nat, q: Processor, p: Processor, r: ParseResult<Processor>)
    requires q.memorySize == DEFAULT_MEMORY_SIZE && p.memorySize <= I64_MAX && LinesAt(ts, pos, MemoryTexts(p))
    requires ParseHeader(ts, pos + |MemoryTexts(p)|, q.(memorySize := p.memorySize)) == r
    ensures ParseHeader(ts, pos, q) == r
  {
    if p.memorySize != DEFAULT_MEMORY_SIZE {
      assert ts[pos + 0] == MemoryTexts(p)[0] && ts[pos + 1] == MemoryTexts(p)[1];
      ReadsMemoryLine(ts, pos + 1, q, p, r);
      HeaderBlank(ts, pos, q);
    }
  }

  lemma {:induction false} ReadsFromTail(ts: seq<string>, pos: nat, q: Processor, p: Processor)
    requires p.cpus <= U32_MAX && LinesAt(ts, pos, TailTexts(p))
    ensures ParseHeader(ts, pos, q) == Parsed(q.(cpus := p.cpus), pos + 3)
  {
    var t, r := TailTexts(p), Parsed(q.(cpus := p.cpus), pos + 3);
    assert ts[pos + 0] == t[0] && ts[pos + 1] == t[1] && ts[pos + 2] == t[2];
    HeaderClose(ts, pos + 2, q.(cpus := p.cpus));
    TopologyEntry(ts, pos + 1, q, p);
    assert |ts[pos + 1]| > 1;
    HeaderNext(ts, pos + 1, q, r);
    ClassifyCache();
    HeaderNext(ts, pos, q, r);
  }

  lemma {:induction false} BlankAt(ts: seq<string>, pos: nat, q: Processor)
    requires LinesAt(ts, pos, [""])
    ensures pos < |ts| && ParseHeader(ts, pos, q) == ParseHeader(ts, pos + 1, q)
  {
    assert ts[pos + 0] == [""][0];
    HeaderBlank(ts, pos, q);
  }

  lemma {:induction false} Sections(ts: seq<string>, pos: nat, h: seq<string>, hw: seq<string>, l: seq<string>, m: seq<string>, t: seq<string>)
    requires LinesAt(ts, pos, h + hw + [""] + l + [""] + m + t)
    ensures LinesAt(ts, pos, h) && LinesAt(ts, pos + |h|, hw) && LinesAt(ts, pos + |h| + |hw|, [""])
    ensures LinesAt(ts, pos + |h| + |hw| + 1, l) && LinesAt(ts, pos + |h| + |hw| + 1 + |l|, [""])
    ensures LinesAt(ts, pos + |h| + |hw| + |l| + 2, m) && LinesAt(ts, pos + |h| + |hw| + |l| + 2 + |m|, t)
  {
    LinesApart(ts, pos, h + hw + [""] + l + [""] + m, t);
    LinesApart(ts, pos, h + hw + [""] + l + [""], m);
    LinesApart(ts, pos, h + hw + [""] + l, [""]);
    LinesApart(ts, pos, h + hw + [""], l);
    LinesApart(ts, pos, h + hw, [""]);
    LinesApart(ts, pos, h, hw);
  }

  lemma {:induction false} ReadsMemoryAndTail(ts: seq<string>, pos: nat, q: Processor, p: Processor, r: ParseResult<Processor>)
    requires PrintableProcessor(p) && q == p.(memorySize := DEFAULT_MEMORY_SIZE, cpus := 1)
    requires LinesAt(ts, pos, MemoryTexts(p)) && LinesAt(ts, pos + |MemoryTexts(p)|, TailTexts(p))
    requires r == Parsed(p, pos + |MemoryTexts(p)| + 3)
    ensures ParseHeader(ts, pos, q) == r
  {
    ReadsFromTail(ts, pos + |MemoryTexts(p)|, q.(memorySize := p.memorySize), p);
    ReadsFromMemory(ts, pos, q, p, r);
  }

  lemma {:induction false} ReadsLayoutOn(ts: seq<string>, b: nat, c: nat, d: nat, q: Processor, p: Processor, r: ParseResult<Processor>)
    requires PrintableProcessor(p) && c == b + |LayoutTexts(p)| && d == c + 1 + |MemoryTexts(p)|
    requires LinesAt(ts, b, LayoutTexts(p)) && LinesAt(ts, c, [""]) && LinesAt(ts, c + 1, MemoryTexts(p)) && LinesAt(ts, d, TailTexts(p))
    requires q == FRESH_PROCESSOR.(width := p.width, units := p.units) && r == Parsed(p, d + 3)
    ensures ParseHeader(ts, b, q) == r
  {
    var q3 := p.(memorySize := DEFAULT_MEMORY_SIZE, cpus := 1);
    ReadsMemoryAndTail(ts, c + 1, q3, p, r);
    ReadsFromBlank(ts, c, q3, r);
    ReadsFromLayout(ts, b, q, p, q3, r, c);
  }

  lemma {:induction false} ReadsHardwareOn(ts: seq<string>, a: nat, b: nat, q: Processor, q': Processor, p: Processor, r: ParseResult<Processor>)
    requires PrintableProcessor(p) && b == a + |HardwareTexts(p)| && q' == q.(units := p.units)
    requires LinesAt(ts, a, HardwareTexts(p)) && LinesAt(ts, b, [""]) && ParseHeader(ts, b + 1, q') == r
    ensures ParseHeader(ts, a, q) == r
  {
    ReadsFromBlank(ts, b, q', r);
    ReadsFromHardware(ts, a, q, p, q', r, b);
  }

  lemma {:induction false} ReadsBody(ts: seq<string>, a: nat, b: nat, c: nat, d: nat, p: Processor, r: ParseResult<Processor>)
    requires PrintableProcessor(p) && b == a + |HardwareTexts(p)| && c == b + 1 + |LayoutTexts(p)| && d == c + 1 + |MemoryTexts(p)|
    requires LinesAt(ts, a, HardwareTexts(p)) && LinesAt(ts, b, [""]) && LinesAt(ts, b + 1, LayoutTexts(p)) && LinesAt(ts, c, [""])
    requires LinesAt(ts, c + 1, MemoryTexts(p)) && LinesAt(ts, d, TailTexts(p)) && r == Parsed(p, d + 3)
    ensures ParseHeader(ts, a, FRESH_PROCESSOR.(width := p.width)) == r
  {
    var q1 := FRESH_PROCESSOR.(width := p.width);
    ReadsLayoutOn(ts, b + 1, c, d, q1.(units := p.units), p, r);
    ReadsHardwareOn(ts, a, b, q1, q1.(units := p.units), p, r);
  }

  /** A printed processor header is read back. */
  lemma {:induction false} ProcessorReads(ts: seq<string>, pos: nat, p: Processor)
    requires PrintableProcessor(p) && LinesAt(ts, pos, HeaderTexts(p))
    ensures ParseProcessor(ts, pos) == Parsed(p, pos + |HeaderTexts(p)|)
  {
    Sections(ts, pos, HeadTexts(p), HardwareTexts(p), LayoutTexts(p), MemoryTexts(p), TailTexts(p));
    var a := pos + 3;
    var b := a + |HardwareTexts(p)|;
    var c := b + 1 + |LayoutTexts(p)|;
    var r := Parsed(p, pos + |HeaderTexts(p)|);
    ReadsBody(ts, a, b, c, c + 1 + |MemoryTexts(p)|, p, r);
    HeadReads(ts, pos, p, r);
  }
}
