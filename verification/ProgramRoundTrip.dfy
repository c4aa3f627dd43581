/** Parsing a printed program gives the program back. */
module ProgramRoundTrip {
  import opened Text
  import opened Numerals
  import opened LinesText
  import opened Asm
  import opened OperandText
  import opened SyllableText
  import opened BundleText
  import opened ProcessorText
  import opened HeaderText
  import opened HeaderRoundTrip
  import opened ProcessorRoundTrip
  import opened ProgramText

  // ----- Printed lines are proper lines -----

  lemma {:induction false} NoFeed(s: string)
    requires NoSpaces(s)
    ensures '\n' !in s
  {
  }

  lemma {:induction false} NumberNoFeed(n: nat, radix: nat)
    requires IsRadix(radix)
    ensures '\n' !in Show(n, radix) && Show(n, radix) != ""
  {
    NumberChars(n, radix, '\n');
  }

  lemma {:induction false} WordNoFeed(s: string)
    requires Word(s)
    ensures '\n' !in s
  {
    assert forall i :: 0 <= i < |s| ==> WordChar(s[i]);
  }

  lemma {:induction false} AddressNoFeed(base: nat, offset: int)
    ensures '\n' !in ShowAddress(base, offset)
  {
    RegText(base);
    WordNoFeed("r" + Show(base, 10));
    if offset != 0 {
      HexText(if offset > 0 then offset else -offset);
      WordNoFeed(ShowHex(if offset > 0 then offset else -offset));
    }
  }

  lemma {:induction false} OperandNoFeed(o: Operand)
    requires Printable(o)
    ensures '\n' !in ShowOperand(o)
  {
    match o
    case RegOp(n) => NumberNoFeed(n, 10);
    case PredOp(n) => NumberNoFeed(n, 10);
    case ImmOp(n) =>
      ShownIntIsWord(n);
      WordNoFeed(ShowInt(n));
    case MemAddr(base, offset) => AddressNoFeed(base, offset);
    case LabelOp(s) => WordNoFeed(s);
  }

  lemma {:induction false} JoinedNoFeed(ts: seq<string>, k: nat)
    requires k < |ts| && forall i :: 0 <= i < |ts| ==> '\n' !in ts[i]
    ensures '\n' !in Joined(ts, k)
  {
    JoinedChars(ts, k, '\n');
  }

  lemma {:induction false} SyllableNoFeed(syl: AsmSyllable)
    requires PrintableSyllable(syl)
    ensures '\n' !in ShowSyllable(syl)
  {
    NoFeed(syl.opcode);
    if syl.operands != [] {
      forall i | 0 <= i < |syl.operands|
        ensures '\n' !in Texts(syl.operands)[i]
      {
        OperandNoFeed(syl.operands[i]);
      }
      JoinedNoFeed(Texts(syl.operands), 0);
    }
  }

  lemma {:induction false} SlotTextNoFeed(b: Bundle, slot: nat)
    requires PrintableBundle(b)
    ensures '\n' !in SlotText(b, slot)
  {
    if slot < |b| && b[slot].Some? {
      SyllableNoFeed(b[slot].value);
    }
  }

  lemma {:induction false} DisplayNoFeed(p: Processor, slot: nat)
    requires GoodAliases(p.slotAliases)
    ensures '\n' !in DisplayName(p, slot)
  {
    SlotNameTight(p, slot);
    NoFeed(SlotName(p, slot));
  }

  lemma {:induction false} PartsNoFeed(a: string, b: string)
    requires '\n' !in a && '\n' !in b
    ensures '\n' !in a + ": " + b
  {
  }

  lemma {:induction false} SlotLineProper(p: Processor, b: Bundle, slot: nat)
    requires GoodAliases(p.slotAliases) && PrintableBundle(b)
    ensures ProperLine(Line(2, SlotLine(p, b, slot)))
  {
    SlotLineReads(p, b, slot);
    SlotTextNoFeed(b, slot);
    DisplayNoFeed(p, slot);
    PartsNoFeed(DisplayName(p, slot), SlotText(b, slot));
  }

  lemma {:induction false} BundleLinesProper(p: Processor, b: Bundle)
    requires GoodAliases(p.slotAliases) && PrintableBundle(b)
    ensures ProperLines(BundleLines(p, b))
  {
    forall slot | 0 <= slot < p.width
      ensures ProperLine(Line(2, SlotLine(p, b, slot)))
    {
      SlotLineProper(p, b, slot);
    }
  }

  lemma {:induction false} ProperTogether(xs: seq<Line>, ys: seq<Line>)
    requires ProperLines(xs) && ProperLines(ys)
    ensures ProperLines(xs + ys)
  {
  }

  lemma {:induction false} LabelLineProper(name: string)
    requires NoSpaceWord(name)
    ensures ProperLine(Line(0, name + ":"))
  {
    NoFeed(name);
  }

  lemma {:induction false} ItemsProper(p: Processor, items: seq<Item>, k: nat)
    requires GoodAliases(p.slotAliases) && (forall i :: 0 <= i < |items| ==> PrintableItem(items[i])) && k <= |items|
    ensures ProperLines(ItemsLines(p, items, k))
    decreases |items| - k
  {
    if k < |items| {
      match items[k] {
        case LabelItem(name) => LabelLineProper(name);
        case BundleItem(b) => BundleLinesProper(p, b);
      }
      ItemsProper(p, items, k + 1);
      ProperTogether(ItemLines(p, items[k]), ItemsLines(p, items, k + 1));
    }
  }

  lemma {:induction false} IndentedProper(n: nat, ts: seq<string>)
    requires forall i :: 0 <= i < |ts| ==> Tight(ts[i]) && '\n' !in ts[i]
    ensures ProperLines(Indented(n, ts))
  {
  }

  lemma {:induction false} UnitLinesProper(us: seq<UnitDecl>)
    requires GoodUnits(us)
    ensures ProperLines(Indented(4, UnitTexts(us)))
  {
    var ts := UnitTexts(us);
    forall i | 0 <= i < |ts|
      ensures Tight(ts[i]) && '\n' !in ts[i]
    {
      NoFeed(us[i].name);
      NoFeed(us[i].kind);
      NoSpaceIsTight(us[i].kind);
    }
    IndentedProper(4, ts);
  }

  lemma {:induction false} AliasLineProper(a: SlotAlias)
    requires NoSpaceWord(a.name)
    ensures Tight(AliasLine(a)) && '\n' !in AliasLine(a)
  {
    NoFeed(a.name);
    NumberNoFeed(a.slot, 10);
    NumberIsTight(a.slot);
    NoSpaceIsTight(Show(a.slot, 10));
  }

  lemma {:induction false} AliasLinesProper(aliases: seq<SlotAlias>)
    requires GoodAliases(aliases)
    ensures ProperLines(Indented(4, AliasTexts(aliases)))
  {
    var ts := AliasTexts(aliases);
    forall i | 0 <= i < |ts|
      ensures Tight(ts[i]) && '\n' !in ts[i]
    {
      AliasLineProper(aliases[i]);
    }
    IndentedProper(4, ts);
  }

  lemma {:induction false} SlotUnitsLineProper(slot: nat, us: seq<string>)
    requires UnitNames(us)
    ensures Tight(SlotUnitsLine(slot, us)) && '\n' !in SlotUnitsLine(slot, us)
  {
    NumberNoFeed(slot, 10);
    NumberIsTight(slot);
    NoSpaceIsTight(Show(slot, 10));
    if us != [] {
      forall i | 0 <= i < |us|
        ensures '\n' !in us[i]
      {
        assert forall k :: 0 <= k < |us[i]| ==> WordChar(us[i][k]);
      }
      JoinedNoFeed(us, 0);
    }
    var t := SlotUnitsLine(slot, us);
    assert t[0] == Show(slot, 10)[0] && t[|t| - 1] == '}';
  }

  lemma {:induction false} SlotUnitsLinesProper(sus: seq<seq<string>>)
    requires GoodSlotUnits(sus)
    ensures ProperLines(Indented(4, SlotUnitsTexts(sus)))
  {
    var ts := SlotUnitsTexts(sus);
    forall i | 0 <= i < |ts|
      ensures Tight(ts[i]) && '\n' !in ts[i]
    {
      SlotUnitsLineProper(i, sus[i]);
    }
    IndentedProper(4, ts);
  }

  lemma {:induction false} HardwareProper(p: Processor)
    requires GoodUnits(p.units)
    ensures ProperLines(HardwareLines(p))
  {
    UnitLinesProper(p.units);
    ProperTogether([Line(2, "hardware {")], Indented(4, UnitTexts(p.units)));
    ProperTogether([Line(2, "hardware {")] + Indented(4, UnitTexts(p.units)), [Line(2, "}")]);
  }

  lemma {:induction false} LayoutProper(p: Processor)
    requires GoodAliases(p.slotAliases) && GoodSlotUnits(p.slotUnits)
    ensures ProperLines(LayoutLines(p))
  {
    var h, a, e, s := [Line(2, "layout slots {")], Indented(4, AliasTexts(p.slotAliases)), [Line(0, "")], Indented(4, SlotUnitsTexts(p.slotUnits));
    AliasLinesProper(p.slotAliases);
    SlotUnitsLinesProper(p.slotUnits);
    ProperTogether(h, a);
    ProperTogether(h + a, e);
    ProperTogether(h + a + e, s);
    ProperTogether(h + a + e + s, [Line(2, "}")]);
  }

  lemma {:induction false} WidthProper(p: Processor)
    ensures ProperLines([Line(0, ".processor {"), Line(2, WidthLine(p)), Line(0, "")])
  {
    NumberNoFeed(p.width, 10);
    NumberIsTight(p.width);
    NoSpaceIsTight(Show(p.width, 10));
  }

  lemma {:induction false} MemoryProper(p: Processor)
    ensures ProperLines(MemoryLines(p))
  {
    NumberNoFeed(p.memorySize, 16);
  }

  lemma {:induction false} TailProper(p: Processor)
    ensures ProperLines([Line(2, "cache { }"), Line(2, TopologyLine(p)), Line(0, "}")])
  {
    NumberNoFeed(p.cpus, 10);
  }

  lemma {:induction false} HeaderProper(p: Processor)
    requires PrintableProcessor(p)
    ensures ProperLines(HeaderLines(p))
  {
    var h, e := [Line(0, ".processor {"), Line(2, WidthLine(p)), Line(0, "")], [Line(0, "")];
    var hw, l, m := HardwareLines(p), LayoutLines(p), MemoryLines(p);
    var t := [Line(2, "cache { }"), Line(2, TopologyLine(p)), Line(0, "}")];
    WidthProper(p);
    HardwareProper(p);
    LayoutProper(p);
    MemoryProper(p);
    TailProper(p);
    ProperTogether(h, hw);
    ProperTogether(h + hw, e);
    ProperTogether(h + hw + e, l);
    ProperTogether(h + hw + e + l, e);
    ProperTogether(h + hw + e + l + e, m);
    ProperTogether(h + hw + e + l + e + m, t);
  }

  lemma {:induction false} ProgramProper(program: Program)
    requires PrintableProgram(program)
    ensures ProperLines(ProgramLines(program))
  {
    var p := program.processor;
    HeaderProper(p);
    ItemsProper(p, program.items, 0);
    ProperTogether(HeaderLines(p), [Line(0, "")]);
    ProperTogether(HeaderLines(p) + [Line(0, "")], ItemsLines(p, program.items, 0));
  }

  // ----- The round trip -----

  function ProgramTexts(program: Program): seq<string> {
    HeaderTexts(program.processor) + [""] + ItemsTexts(program.processor, program.items, 0)
  }

  lemma {:induction false} ProgramLineTexts(program: Program)
    ensures TextsOf(ProgramLines(program)) == ProgramTexts(program)
  {
    var p := program.processor;
    HeaderLineTexts(p);
    ItemsLineTexts(p, program.items, 0);
    TextsTogether(HeaderLines(p), [Line(0, "")]);
    TextsTogether(HeaderLines(p) + [Line(0, "")], ItemsLines(p, program.items, 0));
  }

  lemma {:induction false} WholeAt(ts: seq<string>)
    ensures LinesAt(ts, 0, ts)
  {
  }

  lemma {:induction false} HeaderStarts(ts: seq<string>, p: Processor)
    requires LinesAt(ts, 0, HeaderTexts(p))
    ensures SkipBlank(ts, 0) == 0
  {
    var rest := HardwareTexts(p) + [""] + LayoutTexts(p) + [""] + MemoryTexts(p) + TailTexts(p);
    assert HeaderTexts(p)[0] == ".processor {";
    assert ts[0 + 0] == HeaderTexts(p)[0];
  }

  lemma {:induction false} BlankItem(p: Processor, ts: seq<string>, pos: nat, done: seq<Item>)
    requires pos < |ts| && ts[pos] == ""
    ensures ParseItems(p, ts, pos, done) == ParseItems(p, ts, pos + 1, done)
  {
  }

  lemma {:induction false} HeaderThenItems(ts: seq<string>, p: Processor, n: nat, r: ParseResult<Program>)
    requires SkipBlank(ts, 0) == 0 && ParseProcessor(ts, 0) == Parsed(p, n) && n < |ts| && ts[n] == "" && ParseItems(p, ts, n + 1, []) == r
    ensures ParseLines(ts) == r
  {
    BlankItem(p, ts, n, []);
  }

  lemma {:induction false} ProgramInPlace(ts: seq<string>, h: seq<string>, i: seq<string>)
    requires ts == h + [""] + i
    ensures LinesAt(ts, 0, h) && |h| < |ts| && ts[|h|] == "" && LinesAt(ts, |h| + 1, i)
  {
    WholeAt(ts);
    LinesApart(ts, 0, h + [""], i);
    LinesApart(ts, 0, h, [""]);
  }

  lemma {:induction false} ItemsStart(p: Processor, ts: seq<string>, at: nat, items: seq<Item>, i: seq<string>)
    requires GoodAliases(p.slotAliases) && forall k :: 0 <= k < |items| ==> PrintableItem(items[k])
    requires i == ItemsTexts(p, items, 0) && LinesAt(ts, at, i) && at + |i| == |ts|
    ensures ParseItems(p, ts, at, []) == Parsed(Program(p, CanonicalItems(p, items)), |ts|)
  {
    ItemsRead(p, ts, at, items, 0);
    assert CanonicalItems(p, items)[..0] == [];
  }

  lemma {:induction false} HeaderPart(p: Processor, ts: seq<string>, h: seq<string>)
    requires PrintableProcessor(p) && h == HeaderTexts(p) && LinesAt(ts, 0, h)
    ensures SkipBlank(ts, 0) == 0 && ParseProcessor(ts, 0) == Parsed(p, |h|)
  {
    HeaderStarts(ts, p);
    ProcessorReads(ts, 0, p);
  }

  lemma {:induction false} ItemsPart(p: Processor, items: seq<Item>, ts: seq<string>, h: seq<string>, i: seq<string>)
    requires GoodAliases(p.slotAliases) && forall k :: 0 <= k < |items| ==> PrintableItem(items[k])
    requires i == ItemsTexts(p, items, 0) && ts == h + [""] + i
    ensures |h| < |ts| && ts[|h|] == "" && LinesAt(ts, 0, h)
    ensures ParseItems(p, ts, |h| + 1, []) == Parsed(Program(p, CanonicalItems(p, items)), |ts|)
  {
    ProgramInPlace(ts, h, i);
    ItemsStart(p, ts, |h| + 1, items, i);
  }

  lemma {:induction false} LinesParse(p: Processor, items: seq<Item>, ts: seq<string>, h: seq<string>, i: seq<string>, r: ParseResult<Program>)
    requires PrintableProcessor(p) && forall k :: 0 <= k < |items| ==> PrintableItem(items[k])
    requires h == HeaderTexts(p) && i == ItemsTexts(p, items, 0) && ts == h + [""] + i
    requires r == Parsed(Program(p, CanonicalItems(p, items)), |ts|)
    ensures ParseLines(ts) == r
  {
    ItemsPart(p, items, ts, h, i);
    HeaderPart(p, ts, h);
    HeaderThenItems(ts, p, |h|, r);
  }

  /** What is printed is read back, bundles at full width and bare nops as empty slots. */
  lemma {:induction false} ParseEmit(program: Program)
    requires PrintableProgram(program)
    ensures var r := Parse(Emit(program));
            r.Parsed? && r.value == Program(program.processor, CanonicalItems(program.processor, program.items))
  {
    ProgramProper(program);
    ProperRoundTrip(ProgramLines(program));
    ProgramLineTexts(program);
    var p, items := program.processor, program.items;
    LinesParse(p, items, ProgramTexts(program), HeaderTexts(p), ItemsTexts(p, items, 0),
               Parsed(Program(p, CanonicalItems(p, items)), |ProgramTexts(program)|));
  }

  /** Bundles have the processor's width and hold no bare nop. */
  predicate FullBundles(program: Program) {
    forall i :: 0 <= i < |program.items| && program.items[i].BundleItem? ==>
      var b := program.items[i].bundle;
      |b| == program.processor.width && forall k :: 0 <= k < |b| && b[k].Some? ==> !IsBareNop(b[k].value)
  }

  lemma {:induction false} SameItems(p: Processor, items: seq<Item>)
    ensures CanonicalItems(p, items) == items <==> forall i :: 0 <= i < |items| ==> CanonicalItem(p, items[i]) == items[i]
  {
    if CanonicalItems(p, items) == items {
      forall i | 0 <= i < |items|
        ensures CanonicalItem(p, items[i]) == items[i]
      {
        assert CanonicalItems(p, items)[i] == items[i];
      }
    }
  }

  /** Parsing a printed program gives exactly that program if, and only if, its bundles are full. */
  lemma {:induction false} RoundTripExactlyWhen(program: Program)
    requires PrintableProgram(program)
    ensures Parse(Emit(program)).Parsed?
    ensures Parse(Emit(program)).value == program <==> FullBundles(program)
  {
    var p, items := program.processor, program.items;
    ParseEmit(program);
    SameItems(p, items);
    forall i | 0 <= i < |items| && items[i].BundleItem?
      ensures CanonicalItem(p, items[i]) == items[i] <==>
                |items[i].bundle| == p.width && forall k :: 0 <= k < |items[i].bundle| && items[i].bundle[k].Some? ==> !IsBareNop(items[i].bundle[k].value)
    {
      CanonicalIsSame(items[i].bundle, p.width);
    }
  }
}
