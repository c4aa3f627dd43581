/** The `.vliw` program model: processors, bundles of syllables, and slot legality. */
module Asm {
  import opened Opcodes

  datatype Operand =
    | RegOp(r: nat)
    | PredOp(p: nat)
    | ImmOp(n: int)
    | MemAddr(base: nat, offset: int)
    | LabelOp(name: string)

  datatype AsmSyllable = AsmSyllable(opcode: string, operands: seq<Operand>)

  datatype UnitDecl = UnitDecl(name: string, kind: string)

  datatype SlotAlias = SlotAlias(name: string, slot: nat)

  const DEFAULT_MEMORY_SIZE: nat := 0x10000

  datatype Processor = Processor(
    width: nat, units: seq<UnitDecl>, slotAliases: seq<SlotAlias>, slotUnits: seq<seq<string>>, cpus: nat, memorySize: nat)

  /** One entry per slot; `None` is a nop. */
  type Bundle = seq<Option<AsmSyllable>>

  datatype Item = LabelItem(name: string) | BundleItem(bundle: Bundle)

  datatype Program = Program(processor: Processor, items: seq<Item>)

  /** The canonical four-slot layout I0, I1, M, X. */
  const DEFAULT_PROCESSOR := Processor(
    4,
    [UnitDecl("alu", "integer_alu"), UnitDecl("mem", "memory"), UnitDecl("ctrl", "control"), UnitDecl("mul", "multiplier")],
    [SlotAlias("I0", 0), SlotAlias("I1", 1), SlotAlias("M", 2), SlotAlias("X", 3)],
    [["alu"], ["alu"], ["mem"], ["ctrl", "mul"]],
    1, DEFAULT_MEMORY_SIZE)

  // ----- Slot legality -----

  function UnitKindOf(kind: string): Option<UnitKind> {
    if kind == "integer_alu" then Some(IntegerAlu)
    else if kind == "memory" then Some(Memory)
    else if kind == "control" then Some(Control)
    else if kind == "multiplier" then Some(Multiplier)
    else if kind == "floating_point" then Some(FloatingPoint)
    else if kind == "aes" then Some(Aes)
    else None
  }

  /** Unit name to kind; a later declaration of a name replaces an earlier one, unknown kinds are skipped. */
  function UnitKinds(units: seq<UnitDecl>): map<string, UnitKind> {
    if units == [] then map[]
    else
      var last := units[|units| - 1];
      var rest := UnitKinds(units[..|units| - 1]);
      if UnitKindOf(last.kind).Some? then rest[last.name := UnitKindOf(last.kind).value] else rest
  }

  /** Some unit of the slot is of a kind that executes the opcode. */
  predicate SlotHasUnitFor(proc: Processor, slot: nat, op: Opcode) {
    && slot < |proc.slotUnits|
    && exists u :: u in proc.slotUnits[slot] && u in UnitKinds(proc.units) && UnitKinds(proc.units)[u] in Units(op)
  }

  /** A nop may stand in every slot. */
  predicate SlotSupports(proc: Processor, slot: nat, op: Opcode) {
    if op == Nop then slot < proc.width else SlotHasUnitFor(proc, slot, op)
  }

  // ----- Bundles -----

  predicate IsEmptyBundle(b: Bundle) {
    forall i :: 0 <= i < |b| ==> b[i].None?
  }

  /** The syllables of a bundle in slot order. */
  function Syllables(b: Bundle): seq<AsmSyllable> {
    if b == [] then []
    else
      var n := |b| - 1;
      if b[n].Some? then Syllables(b[..n]) + [b[n].value] else Syllables(b[..n])
  }

  function OpcodeOf(syl: AsmSyllable): Option<Opcode> {
    FromMnemonic(syl.opcode)
  }

  predicate IsTerminatorSyllable(syl: AsmSyllable) {
    OpcodeOf(syl).Some? && IsTerminatorOpcode(OpcodeOf(syl).value)
  }

  predicate IsTerminatorBundle(b: Bundle) {
    exists i :: 0 <= i < |b| && b[i].Some? && IsTerminatorSyllable(b[i].value)
  }

  lemma {:induction false} EmptyBundleSyllables(b: Bundle)
    requires IsEmptyBundle(b)
    ensures Syllables(b) == []
  {
    if b != [] {
      EmptyBundleSyllables(b[..|b| - 1]);
    }
  }

  /** Filling an empty slot adds exactly one syllable to the bundle. */
  lemma {:induction false} FillSlot(b: Bundle, slot: nat, syl: AsmSyllable)
    requires slot < |b| && b[slot].None?
    ensures multiset(Syllables(b[slot := Some(syl)])) == multiset(Syllables(b)) + multiset{syl}
  {
    var b', n := b[slot := Some(syl)], |b| - 1;
    if slot == n {
      assert b'[..n] == b[..n];
    } else {
      assert b'[..n] == b[..n][slot := Some(syl)];
      FillSlot(b[..n], slot, syl);
    }
  }

  lemma {:induction false} SyllableInSlot(b: Bundle, slot: nat)
    requires slot < |b| && b[slot].Some?
    ensures b[slot].value in Syllables(b)
  {
    var n := |b| - 1;
    if slot < n {
      SyllableInSlot(b[..n], slot);
      assert b[slot].value in Syllables(b[..n]);
    }
  }

  /** The slot that holds the i-th syllable. */
  function SlotOf(b: Bundle, i: nat): (slot: nat)
    requires i < |Syllables(b)|
    ensures slot < |b| && b[slot] == Some(Syllables(b)[i])
  {
    var n := |b| - 1;
    if b[n].Some? && i == |Syllables(b)| - 1 then n else SlotOf(b[..n], i)
  }

  lemma {:induction false} SlotsInOrder(b: Bundle, i: nat, j: nat)
    requires i < j < |Syllables(b)|
    ensures SlotOf(b, i) < SlotOf(b, j)
  {
    var n := |b| - 1;
    if b[n].None? || j < |Syllables(b)| - 1 {
      SlotsInOrder(b[..n], i, j);
    }
  }

  // ----- Runs of bundles -----

  /** The syllables of a run of bundles, in order. */
  function Flat(bs: seq<Bundle>): seq<AsmSyllable> {
    if bs == [] then [] else Flat(bs[..|bs| - 1]) + Syllables(bs[|bs| - 1])
  }

  lemma {:induction false} FlatAppend(bs: seq<Bundle>, b: Bundle)
    ensures Flat(bs + [b]) == Flat(bs) + Syllables(b)
  {
    assert (bs + [b])[..|bs|] == bs;
  }

  /** Bundles that only let a cycle pass. */
  function Nops(n: nat): (r: seq<Bundle>)
    ensures |r| == n
  {
    if n == 0 then [] else Nops(n - 1) + [[]]
  }

  function AsItems(bs: seq<Bundle>): seq<Item> {
    seq(|bs|, i requires 0 <= i < |bs| => BundleItem(bs[i]))
  }

  lemma {:induction false} FlatNops(bs: seq<Bundle>, n: nat)
    ensures Flat(bs + Nops(n)) == Flat(bs)
  {
    if n == 0 {
      assert bs + Nops(n) == bs;
    } else {
      FlatNops(bs, n - 1);
      FlatAppend(bs + Nops(n - 1), []);
      assert bs + Nops(n) == bs + Nops(n - 1) + [[]];
    }
  }
}
