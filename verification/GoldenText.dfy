/** A stored fixture of the repository, as the printer writes it. */
module GoldenText {
  import opened Opcodes
  import opened Mir
  import opened Numerals
  import opened LinesText
  import opened Asm
  import opened Ready
  import opened Timing
  import opened Lowering
  import opened Emitter
  import opened PackerLimits
  import opened EmissionExact
  import opened OperandText
  import opened SyllableText
  import opened BundleText
  import opened ProcessorText
  import opened ProgramText

  // ----- The header of the canonical processor -----

  const HARDWARE: seq<string> := [
    "  hardware {",
    "    unit alu = integer_alu",
    "    unit mem = memory",
    "    unit ctrl = control",
    "    unit mul = multiplier",
    "  }"]

  const LAYOUT: seq<string> := [
    "  layout slots {",
    "    alias I0 = 0",
    "    alias I1 = 1",
    "    alias M = 2",
    "    alias X = 3",
    "",
    "    0 = { alu }",
    "    1 = { alu }",
    "    2 = { mem }",
    "    3 = { ctrl, mul }",
    "  }"]

  const HEADER: seq<string> :=
    [".processor {", "  width 4", ""] + HARDWARE + [""] + LAYOUT + [""] + ["  cache { }", "  topology { cpus 1 }", "}"]

  lemma {:induction false} WrittenAppend(xs: seq<Line>, ys: seq<Line>)
    ensures WrittenAll(xs + ys) == WrittenAll(xs) + WrittenAll(ys)
  {
  }

  lemma {:induction false} SmallNumbers(d: nat)
    requires d < 10
    ensures Show(d, 10) == ['0' + d as char]
  {
  }

  lemma {:induction false} UnitWritten(name: string, kind: string)
    ensures Written(Line(4, UnitLine(UnitDecl(name, kind)))) == "    unit " + name + " = " + kind
  {
    assert Blanks(4) == "    ";
  }

  lemma {:induction false} AluLine()
    ensures Written(Line(4, UnitLine(UnitDecl("alu", "integer_alu")))) == "    unit alu = integer_alu"
  {
    UnitWritten("alu", "integer_alu");
  }

  lemma {:induction false} MemLine()
    ensures Written(Line(4, UnitLine(UnitDecl("mem", "memory")))) == "    unit mem = memory"
  {
    UnitWritten("mem", "memory");
  }

  lemma {:induction false} CtrlLine()
    ensures Written(Line(4, UnitLine(UnitDecl("ctrl", "control")))) == "    unit ctrl = control"
  {
    UnitWritten("ctrl", "control");
  }

  lemma {:induction false} MulLine()
    ensures Written(Line(4, UnitLine(UnitDecl("mul", "multiplier")))) == "    unit mul = multiplier"
  {
    UnitWritten("mul", "multiplier");
  }

  lemma {:induction false} HardwareWritten()
    ensures WrittenAll(HardwareLines(DEFAULT_PROCESSOR)) == HARDWARE
  {
    AluLine();
    MemLine();
    CtrlLine();
    MulLine();
    assert Written(Line(2, "hardware {")) == "  hardware {" && Written(Line(2, "}")) == "  }";
    var units := DEFAULT_PROCESSOR.units;
    var ls := HardwareLines(DEFAULT_PROCESSOR);
    assert ls == [Line(2, "hardware {"), Line(4, UnitLine(units[0])), Line(4, UnitLine(units[1])), Line(4, UnitLine(units[2])), Line(4, UnitLine(units[3])), Line(2, "}")];
  }

  lemma {:induction false} AliasWritten(name: string, d: nat)
    requires d < 10
    ensures Written(Line(4, AliasLine(SlotAlias(name, d)))) == "    alias " + name + " = " + ['0' + d as char]
  {
    assert Blanks(4) == "    ";
    SmallNumbers(d);
  }

  lemma {:induction false} AliasLines()
    ensures Written(Line(4, AliasLine(SlotAlias("I0", 0)))) == "    alias I0 = 0"
    ensures Written(Line(4, AliasLine(SlotAlias("I1", 1)))) == "    alias I1 = 1"
    ensures Written(Line(4, AliasLine(SlotAlias("M", 2)))) == "    alias M = 2"
    ensures Written(Line(4, AliasLine(SlotAlias("X", 3)))) == "    alias X = 3"
  {
    AliasWritten("I0", 0);
    AliasWritten("I1", 1);
    AliasWritten("M", 2);
    AliasWritten("X", 3);
  }

  lemma {:induction false} SlotUnitsWritten(slot: nat, us: seq<string>, list: string)
    requires slot < 10 && UnitList(us) == list
    ensures Written(Line(4, SlotUnitsLine(slot, us))) == "    " + ['0' + slot as char] + " = { " + list + " }"
  {
    assert Blanks(4) == "    ";
    SmallNumbers(slot);
  }

  lemma {:induction false} SlotLines()
    ensures Written(Line(4, SlotUnitsLine(0, ["alu"]))) == "    0 = { alu }"
    ensures Written(Line(4, SlotUnitsLine(1, ["alu"]))) == "    1 = { alu }"
    ensures Written(Line(4, SlotUnitsLine(2, ["mem"]))) == "    2 = { mem }"
  {
    SlotUnitsWritten(0, ["alu"], "alu");
    SlotUnitsWritten(1, ["alu"], "alu");
    SlotUnitsWritten(2, ["mem"], "mem");
  }

  lemma {:induction false} TwoUnitsListed()
    ensures UnitList(["ctrl", "mul"]) == "ctrl, mul"
  {
    var us := ["ctrl", "mul"];
    assert Joined(us, 1) == "mul";
    assert Joined(us, 0) == "ctrl" + ", " + "mul";
  }

  lemma {:induction false} LastSlotLine()
    ensures Written(Line(4, SlotUnitsLine(3, ["ctrl", "mul"]))) == "    3 = { ctrl, mul }"
  {
    TwoUnitsListed();
    SlotUnitsWritten(3, ["ctrl", "mul"], "ctrl, mul");
    LastSlotText();
  }

  lemma {:induction false} LastSlotText()
    ensures "    " + ['0' + 3 as char] + " = { " + "ctrl, mul" + " }" == "    3 = { ctrl, mul }"
  {
  }

  lemma {:induction false} AliasesWritten()
    ensures WrittenAll(Indented(4, AliasTexts(DEFAULT_PROCESSOR.slotAliases))) == LAYOUT[1..5]
  {
    AliasLines();
    var aliases := DEFAULT_PROCESSOR.slotAliases;
    assert Indented(4, AliasTexts(aliases)) ==
      [Line(4, AliasLine(aliases[0])), Line(4, AliasLine(aliases[1])), Line(4, AliasLine(aliases[2])), Line(4, AliasLine(aliases[3]))];
  }

  lemma {:induction false} SlotTableWritten()
    ensures WrittenAll(Indented(4, SlotUnitsTexts(DEFAULT_PROCESSOR.slotUnits))) == LAYOUT[6..10]
  {
    SlotLines();
    LastSlotLine();
    var units := DEFAULT_PROCESSOR.slotUnits;
    assert Indented(4, SlotUnitsTexts(units)) ==
      [Line(4, SlotUnitsLine(0, units[0])), Line(4, SlotUnitsLine(1, units[1])), Line(4, SlotUnitsLine(2, units[2])), Line(4, SlotUnitsLine(3, units[3]))];
  }

  lemma {:induction false} LayoutBraces()
    ensures WrittenAll([Line(2, "layout slots {")]) == LAYOUT[0..1] && WrittenAll([Line(0, "")]) == LAYOUT[5..6] && WrittenAll([Line(2, "}")]) == LAYOUT[10..]
  {
    assert Written(Line(2, "layout slots {")) == "  layout slots {" && Written(Line(2, "}")) == "  }" && Written(Line(0, "")) == "";
  }

  lemma {:induction false} LayoutWritten()
    ensures WrittenAll(LayoutLines(DEFAULT_PROCESSOR)) == LAYOUT
  {
    var open, aliases, blank := [Line(2, "layout slots {")], Indented(4, AliasTexts(DEFAULT_PROCESSOR.slotAliases)), [Line(0, "")];
    var slots, close := Indented(4, SlotUnitsTexts(DEFAULT_PROCESSOR.slotUnits)), [Line(2, "}")];
    LayoutBraces();
    AliasesWritten();
    SlotTableWritten();
    WrittenAppend(open, aliases);
    WrittenAppend(open + aliases, blank);
    WrittenAppend(open + aliases + blank, slots);
    WrittenAppend(open + aliases + blank + slots, close);
    Pieces(LAYOUT);
  }

  lemma {:induction false} Pieces(ls: seq<string>)
    requires |ls| == 11
    ensures ls[0..1] + ls[1..5] + ls[5..6] + ls[6..10] + ls[10..] == ls
  {
  }

  lemma {:induction false} WidthWritten()
    ensures Written(Line(2, WidthLine(DEFAULT_PROCESSOR))) == "  width 4"
  {
    assert Blanks(2) == "  ";
    SmallNumbers(4);
  }

  lemma {:induction false} TopologyWritten()
    ensures Written(Line(2, TopologyLine(DEFAULT_PROCESSOR))) == "  topology { cpus 1 }"
  {
    assert Blanks(2) == "  ";
    SmallNumbers(1);
  }

  lemma {:induction false} SingleLines()
    ensures Written(Line(0, ".processor {")) == ".processor {"
    ensures Written(Line(2, "cache { }")) == "  cache { }"
    ensures Written(Line(0, "}")) == "}" && Written(Line(0, "")) == ""
  {
    assert Blanks(2) == "  " && Blanks(0) == "";
  }

  lemma {:induction false} StartWritten()
    ensures WrittenAll([Line(0, ".processor {"), Line(2, WidthLine(DEFAULT_PROCESSOR)), Line(0, "")]) == [".processor {", "  width 4", ""]
    ensures WrittenAll([Line(0, "")]) == [""]
  {
    SingleLines();
    WidthWritten();
  }

  lemma {:induction false} EndWritten()
    ensures WrittenAll([Line(2, "cache { }"), Line(2, TopologyLine(DEFAULT_PROCESSOR)), Line(0, "}")]) == ["  cache { }", "  topology { cpus 1 }", "}"]
  {
    SingleLines();
    TopologyWritten();
  }

  /** The header of the canonical processor, line by line. */
  lemma {:induction false} HeaderWritten()
    ensures WrittenAll(HeaderLines(DEFAULT_PROCESSOR)) == HEADER
  {
    StartWritten();
    EndWritten();
    HardwareWritten();
    LayoutWritten();
    var p := DEFAULT_PROCESSOR;
    var start, blank, end := [Line(0, ".processor {"), Line(2, WidthLine(p)), Line(0, "")], [Line(0, "")], [Line(2, "cache { }"), Line(2, TopologyLine(p)), Line(0, "}")];
    assert MemoryLines(p) == [];
    WrittenAppend(start, HardwareLines(p));
    WrittenAppend(start + HardwareLines(p), blank);
    WrittenAppend(start + HardwareLines(p) + blank, LayoutLines(p));
    WrittenAppend(start + HardwareLines(p) + blank + LayoutLines(p), blank);
    WrittenAppend(start + HardwareLines(p) + blank + LayoutLines(p) + blank, end);
    assert start + HardwareLines(p) + blank + LayoutLines(p) + blank + MemoryLines(p) + end == start + HardwareLines(p) + blank + LayoutLines(p) + blank + end;
  }

  // ----- A bundle -----

  lemma {:induction false} AliasWidth()
    ensures LongestAlias(DEFAULT_PROCESSOR.slotAliases) == 2
  {
    var aliases := DEFAULT_PROCESSOR.slotAliases;
    assert aliases[..4] == aliases && aliases[..3] == aliases[..4][..3] && aliases[..2] == aliases[..3][..2] && aliases[..1] == aliases[..2][..1];
    assert LongestAlias(aliases[..1]) == 2;
    assert LongestAlias(aliases[..2]) == 2;
    assert LongestAlias(aliases[..3]) == 2;
  }

  lemma {:induction false} NamesOfSlots()
    ensures SlotName(DEFAULT_PROCESSOR, 0) == "I0" && SlotName(DEFAULT_PROCESSOR, 1) == "I1"
    ensures SlotName(DEFAULT_PROCESSOR, 2) == "M" && SlotName(DEFAULT_PROCESSOR, 3) == "X"
  {
  }

  /** Names are padded to two characters. */
  lemma {:induction false} DisplayNames()
    ensures DisplayName(DEFAULT_PROCESSOR, 0) == "I0" && DisplayName(DEFAULT_PROCESSOR, 1) == "I1"
    ensures DisplayName(DEFAULT_PROCESSOR, 2) == "M " && DisplayName(DEFAULT_PROCESSOR, 3) == "X "
  {
    AliasWidth();
    NamesOfSlots();
    assert Blanks(0) == "" && Blanks(1) == " ";
  }

  lemma {:induction false} SlotWritten(b: Bundle, slot: nat, name: string, text: string)
    requires DisplayName(DEFAULT_PROCESSOR, slot) == name && SlotText(b, slot) == text
    ensures Written(Line(2, SlotLine(DEFAULT_PROCESSOR, b, slot))) == "  " + name + ": " + text
  {
    assert Blanks(2) == "  ";
  }

  lemma {:induction false} FourSlots(b: Bundle)
    ensures var p := DEFAULT_PROCESSOR;
            BundleLines(p, b) ==
              [Line(0, "{"), Line(2, SlotLine(p, b, 0)), Line(2, SlotLine(p, b, 1)), Line(2, SlotLine(p, b, 2)), Line(2, SlotLine(p, b, 3)), Line(0, "}")]
  {
    assert DEFAULT_PROCESSOR.width == 4;
  }

  lemma {:induction false} BracesWritten()
    ensures Written(Line(0, "{")) == "{" && Written(Line(0, "}")) == "}"
  {
    assert Blanks(0) == "";
  }

  /** The four lines between the braces, for the given slot texts. */
  lemma {:induction false} BundleWritten(b: Bundle, s0: string, s1: string, s2: string, s3: string)
    requires SlotText(b, 0) == s0 && SlotText(b, 1) == s1 && SlotText(b, 2) == s2 && SlotText(b, 3) == s3
    ensures WrittenAll(BundleLines(DEFAULT_PROCESSOR, b)) ==
              ["{", "  " + "I0" + ": " + s0, "  " + "I1" + ": " + s1, "  " + "M " + ": " + s2, "  " + "X " + ": " + s3, "}"]
  {
    DisplayNames();
    FourSlots(b);
    BracesWritten();
    SlotWritten(b, 0, "I0", s0);
    SlotWritten(b, 1, "I1", s1);
    SlotWritten(b, 2, "M ", s2);
    SlotWritten(b, 3, "X ", s3);
  }

  // ----- Operands and syllables -----

  lemma {:induction false} OperandsWritten()
    ensures ShowOperand(RegOp(2)) == "r2" && ShowOperand(PredOp(3)) == "p3" && ShowOperand(ImmOp(7)) == "7" && ShowOperand(ImmOp(-5)) == "-5"
    ensures ShowOperand(LabelOp("common.ret")) == "common.ret"
  {
    SmallNumbers(2);
    SmallNumbers(3);
    SmallNumbers(7);
    SmallNumbers(5);
  }

  lemma {:induction false} Hex100()
    ensures ShowHex(0x100) == "0x100" && ShowHex(8) == "0x8"
  {
    assert Show(1, 16) == "1";
    assert Show(16, 16) == Show(1, 16) + ['0'];
    assert Show(256, 16) == Show(16, 16) + ['0'];
    assert Show(8, 16) == "8";
  }

  lemma {:induction false} AddressesWritten()
    ensures ShowOperand(MemAddr(0, 0x100)) == "[r0 + 0x100]" && ShowOperand(MemAddr(3, -8)) == "[r3 - 0x8]" && ShowOperand(MemAddr(3, 0)) == "[r3]"
  {
    SmallNumbers(0);
    SmallNumbers(3);
    Hex100();
  }

  const MOVI: AsmSyllable := AsmSyllable("movi", [RegOp(1), ImmOp(7)])
  const STORE: AsmSyllable := AsmSyllable("std", [MemAddr(0, 0x100), RegOp(2)])

  lemma {:induction false} MoveWritten()
    ensures ShowSyllable(MOVI) == "movi r1, 7"
  {
    SmallNumbers(1);
    OperandsWritten();
    TwoOperands(MOVI, "r1", "7");
  }

  lemma {:induction false} StoreWritten()
    ensures ShowSyllable(STORE) == "std [r0 + 0x100], r2"
  {
    OperandsWritten();
    AddressesWritten();
    TwoOperands(STORE, "[r0 + 0x100]", "r2");
  }

  lemma {:induction false} TwoOperands(syl: AsmSyllable, a: string, b: string)
    requires |syl.operands| == 2 && ShowOperand(syl.operands[0]) == a && ShowOperand(syl.operands[1]) == b
    ensures ShowSyllable(syl) == syl.opcode + " " + a + ", " + b
  {
    assert Joined(Texts(syl.operands), 1) == b;
    assert Joined(Texts(syl.operands), 0) == a + ", " + b;
  }

  // ----- The fixture: a function that returns 7 -----

  const RETURN_7: Function := Function("main", [Block("entry", [Syllable(MovImm, Some(PReg(1)), [Imm(7)])], Return)])

  const RET: AsmSyllable := AsmSyllable("ret", [])

  const MOVE_BUNDLE: Bundle := [Some(MOVI), None, None, None]
  const RET_BUNDLE: Bundle := [None, None, None, Some(RET)]

  const RETURN_7_ITEMS: seq<Item> := [LabelItem("main"), LabelItem("entry"), BundleItem(MOVE_BUNDLE), BundleItem(RET_BUNDLE)]

  const RETURN_7_TEXT: seq<string> := [
    "main:",
    "entry:",
    "{",
    "  I0: movi r1, 7",
    "  I1: nop",
    "  M : nop",
    "  X : nop",
    "}",
    "{",
    "  I0: nop",
    "  I1: nop",
    "  M : nop",
    "  X : ret",
    "}"]

  lemma {:induction false} NopLines()
    ensures "  " + "I0" + ": " + "nop" == "  I0: nop" && "  " + "I1" + ": " + "nop" == "  I1: nop"
    ensures "  " + "M " + ": " + "nop" == "  M : nop" && "  " + "X " + ": " + "nop" == "  X : nop"
  {
  }

  lemma {:induction false} MoveBundleWritten()
    ensures WrittenAll(BundleLines(DEFAULT_PROCESSOR, MOVE_BUNDLE)) == RETURN_7_TEXT[2..8]
  {
    MoveWritten();
    NopLines();
    BundleWritten(MOVE_BUNDLE, "movi r1, 7", "nop", "nop", "nop");
    assert "  " + "I0" + ": " + "movi r1, 7" == "  I0: movi r1, 7";
  }

  lemma {:induction false} RetBundleWritten()
    ensures WrittenAll(BundleLines(DEFAULT_PROCESSOR, RET_BUNDLE)) == RETURN_7_TEXT[8..]
  {
    NopLines();
    BundleWritten(RET_BUNDLE, "nop", "nop", "nop", "ret");
    assert "  " + "X " + ": " + "ret" == "  X : ret";
  }

  lemma {:induction false} LabelsWritten()
    ensures WrittenAll([Line(0, "main:")]) == ["main:"] && WrittenAll([Line(0, "entry:")]) == ["entry:"]
    ensures "main" + ":" == "main:" && "entry" + ":" == "entry:"
  {
    assert Blanks(0) == "";
    assert Written(Line(0, "main:")) == "main:" && Written(Line(0, "entry:")) == "entry:";
  }

  lemma {:induction false} ItemsUnrolled(p: Processor, items: seq<Item>, a: seq<Line>, b: seq<Line>, c: seq<Line>, d: seq<Line>)
    requires |items| == 4 && ItemLines(p, items[0]) == a && ItemLines(p, items[1]) == b && ItemLines(p, items[2]) == c && ItemLines(p, items[3]) == d
    ensures ItemsLines(p, items, 0) == a + b + c + d
  {
    assert ItemsLines(p, items, 4) == [];
    assert ItemsLines(p, items, 3) == d;
    assert ItemsLines(p, items, 2) == c + d;
    assert ItemsLines(p, items, 1) == b + (c + d);
  }

  lemma {:induction false} ItemsWritten()
    ensures WrittenAll(ItemsLines(DEFAULT_PROCESSOR, RETURN_7_ITEMS, 0)) == RETURN_7_TEXT
  {
    var p := DEFAULT_PROCESSOR;
    LabelsWritten();
    MoveBundleWritten();
    RetBundleWritten();
    var a, b, c, d := [Line(0, "main:")], [Line(0, "entry:")], BundleLines(p, MOVE_BUNDLE), BundleLines(p, RET_BUNDLE);
    ItemsUnrolled(p, RETURN_7_ITEMS, a, b, c, d);
    WrittenAppend(a, b);
    WrittenAppend(a + b, c);
    WrittenAppend(a + b + c, d);
    FourPieces(RETURN_7_TEXT);
  }

  lemma {:induction false} FourPieces(ls: seq<string>)
    requires |ls| == 14 && ls[0] == "main:" && ls[1] == "entry:"
    ensures ["main:"] + ["entry:"] + ls[2..8] + ls[8..] == ls
  {
  }

  /** The printed program is the stored text, line by line. */
  lemma {:induction false} Return7Printed()
    ensures Emit(Program(DEFAULT_PROCESSOR, RETURN_7_ITEMS)) == Unlines(HEADER + [""] + RETURN_7_TEXT, 0)
  {
    var p := DEFAULT_PROCESSOR;
    HeaderWritten();
    ItemsWritten();
    StartWritten();
    WrittenAppend(HeaderLines(p), [Line(0, "")]);
    WrittenAppend(HeaderLines(p) + [Line(0, "")], ItemsLines(p, RETURN_7_ITEMS, 0));
  }

  // ----- The fixture as it is emitted -----

  lemma {:induction false} NoSources(e: Emission, syl: AsmSyllable)
    requires syl == MOVI || syl == RET
    ensures IssueCycle(e, syl) == e.cycle
  {
    MnemonicRoundTrip(MovImm);
    MnemonicRoundTrip(Ret);
    assert SourceKeysFrom([RegOp(1), ImmOp(7)], 1, false, false) == SourceKeysFrom([RegOp(1), ImmOp(7)], 2, false, false);
  }

  lemma {:induction false} IssuedNow(e: Emission, syl: AsmSyllable, slot: nat, b: Bundle)
    requires slot < 4 && IssueCycle(e, syl) == e.cycle && b == BundleWith(4, slot, syl)
    ensures Issued(4, e, syl, slot).items == e.items + [BundleItem(b)]
  {
    assert Nops(0) + [b] == [b];
    assert AsItems([b]) == [BundleItem(b)];
  }

  lemma {:induction false} MoveEmitted(e: Emission) returns (e': Emission)
    ensures EmitSyllables(DEFAULT_PROCESSOR, e, RETURN_7.blocks[0].syllables) == Done(e') && e'.items == e.items + [BundleItem(MOVE_BUNDLE)]
  {
    var syl := Syllable(MovImm, Some(PReg(1)), [Imm(7)]);
    var syls := RETURN_7.blocks[0].syllables;
    assert syls == [syl] && syls[..0] == [];
    MoveLowered(syl);
    CanonicalSlots(MovImm);
    SlotFor(0, MovImm);
    NoSources(e, MOVI);
    assert BundleWith(4, 0, MOVI) == MOVE_BUNDLE;
    IssuedNow(e, MOVI, 0, MOVE_BUNDLE);
    e' := Issued(4, e, MOVI, 0);
  }

  lemma {:induction false} MoveLowered(syl: Syllable)
    requires syl == Syllable(MovImm, Some(PReg(1)), [Imm(7)])
    ensures LowerSyllable(syl) == Done(MOVI)
  {
    var srcs := [Imm(7)];
    assert srcs[..0] == [] && ScalarOperands(Gpr, []) == Done([]) && ScalarOperand(Gpr, srcs[0]) == Done(ImmOp(7));
    assert ScalarOperands(Gpr, srcs) == Done([] + [ImmOp(7)]);
    assert [RegOp(1)] + ([] + [ImmOp(7)]) == MOVI.operands;
  }

  lemma {:induction false} RetSlot()
    ensures XSlot(DEFAULT_PROCESSOR) == Some(3) && SlotSupports(DEFAULT_PROCESSOR, 3, Ret)
  {
    CanonicalAliases();
    SlotFor(3, Ret);
  }

  lemma {:induction false} EndIssued(proc: Processor, e: Emission, b: Bundle)
    requires proc.width == 4 && XSlot(proc) == Some(3) && SlotSupports(proc, 3, Ret) && IssueCycle(e, RET) == e.cycle && b == BundleWith(4, 3, RET)
    ensures EmitTerminator(proc, e, Return) == Done(Issued(4, e, RET, 3)) && Issued(4, e, RET, 3).items == e.items + [BundleItem(b)]
  {
    IssuedNow(e, RET, 3, b);
  }

  lemma {:induction false} RetEmitted(e: Emission) returns (e': Emission)
    ensures EmitTerminator(DEFAULT_PROCESSOR, e, Return) == Done(e') && e'.items == e.items + [BundleItem(RET_BUNDLE)]
  {
    RetSlot();
    NoSources(e, RET);
    assert BundleWith(4, 3, RET) == RET_BUNDLE;
    EndIssued(DEFAULT_PROCESSOR, e, RET_BUNDLE);
    e' := Issued(4, e, RET, 3);
  }

  lemma {:induction false} BlockEmitted(e: Emission) returns (e': Emission)
    ensures EmitBlock(DEFAULT_PROCESSOR, e, RETURN_7.blocks[0]) == Done(e')
    ensures e'.items == e.items + [LabelItem("entry")] + [BundleItem(MOVE_BUNDLE)] + [BundleItem(RET_BUNDLE)]
  {
    var moved := MoveEmitted(EmitLabel(e, "entry"));
    e' := RetEmitted(moved);
  }

  lemma {:induction false} OneBlock(proc: Processor, e: Emission, f: Function, e': Emission)
    requires |f.blocks| == 1 && EmitBlock(proc, EmitLabel(e, f.name), f.blocks[0]) == Done(e')
    ensures EmitFrom(proc, e, f, 0) == Done(e')
  {
    assert EmitFrom(proc, e', f, 1) == Done(e');
  }

  lemma {:induction false} MainEmitted() returns (e: Emission)
    ensures EmitBlocks(DEFAULT_PROCESSOR, [], RETURN_7) == Done(e) && e.items == RETURN_7_ITEMS
  {
    var start := Emission([], ALL_READY, 0);
    e := BlockEmitted(EmitLabel(start, RETURN_7.name));
    OneBlock(DEFAULT_PROCESSOR, start, RETURN_7, e);
    FourItems();
  }

  lemma {:induction false} FourItems()
    ensures [] + [LabelItem("main")] + [LabelItem("entry")] + [BundleItem(MOVE_BUNDLE)] + [BundleItem(RET_BUNDLE)] == RETURN_7_ITEMS
  {
  }

  lemma {:induction false} OneFunction(proc: Processor, f: Function, e: Emission)
    requires EmitBlocks(proc, [], f) == Done(e)
    ensures EmitFunctions(proc, [f]) == Done(e.items)
  {
    assert [f][..0] == [] && EmitFunctions(proc, []) == Done([]);
  }

  /** The function that returns 7, from its machine intermediate representation to the stored text. */
  lemma {:induction false} Return7Compiled()
    ensures EmitFunctions(DEFAULT_PROCESSOR, [RETURN_7]) == Done(RETURN_7_ITEMS)
    ensures Emit(Program(DEFAULT_PROCESSOR, RETURN_7_ITEMS)) == Unlines(HEADER + [""] + RETURN_7_TEXT, 0)
  {
    var e := MainEmitted();
    OneFunction(DEFAULT_PROCESSOR, RETURN_7, e);
    Return7Printed();
  }
}
